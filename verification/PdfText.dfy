/** Text in a PDF content stream: how the writer escapes it, and how a reader
    gets it back by the rules of section 7.3.4.2 of ISO 32000-1. */
module PdfText {
  import opened Models
  import opened Text
  import opened PythonText
  import opened PdfReader

  // ---- the writer ----

  /** Python's `s.replace(c, sub)` for a single character. */
  function ReplaceChar(s: string, c: char, sub: string): string {
    if s == "" then "" else (if s[0] == c then sub else [s[0]]) + ReplaceChar(s[1..], c, sub)
  }

  /** The three replaces, one after the other. */
  function Escape(line: string): string {
    ReplaceChar(ReplaceChar(ReplaceChar(line, '\\', "\\\\"), '(', "\\("), ')', "\\)")
  }

  predicate Special(c: char) {
    c == '\\' || c == '(' || c == ')'
  }

  /** One backslash before every special character. */
  function EscapeEach(line: string): string {
    if line == "" then "" else (if Special(line[0]) then ['\\', line[0]] else [line[0]]) + EscapeEach(line[1..])
  }

  lemma {:induction false} ReplaceSplits(a: string, b: string, c: char, sub: string)
    ensures ReplaceChar(a + b, c, sub) == ReplaceChar(a, c, sub) + ReplaceChar(b, c, sub)
  {
    if a == "" {
      assert a + b == b;
    } else {
      assert (a + b)[0] == a[0] && (a + b)[1..] == a[1..] + b;
      ReplaceSplits(a[1..], b, c, sub);
    }
  }

  lemma ReplaceOne(x: char, c: char, sub: string)
    ensures ReplaceChar([x], c, sub) == if x == c then sub else [x]
  {
    assert [x][1..] == "";
  }

  lemma ReplaceTwo(x: char, y: char, c: char, sub: string)
    requires x != c
    ensures ReplaceChar([x, y], c, sub) == [x] + (if y == c then sub else [y])
  {
    assert [x, y] == [x] + [y];
    ReplaceSplits([x], [y], c, sub);
    ReplaceOne(x, c, sub);
    ReplaceOne(y, c, sub);
  }

  lemma EscapeOne(x: char)
    ensures Escape([x]) == if Special(x) then ['\\', x] else [x]
  {
    ReplaceOne(x, '\\', "\\\\");
    if x == '\\' {
      ReplaceTwo('\\', '\\', '(', "\\(");
      ReplaceTwo('\\', '\\', ')', "\\)");
    } else {
      ReplaceOne(x, '(', "\\(");
      if x == '(' {
        ReplaceTwo('\\', '(', ')', "\\)");
      } else {
        ReplaceOne(x, ')', "\\)");
      }
    }
  }

  /** The order of the three replaces is right: together they escape each
      character once, and never escape an escape. */
  lemma {:induction false} EscapeIsPerCharacter(line: string)
    ensures Escape(line) == EscapeEach(line)
  {
    if line == "" {
    } else {
      var first, rest := [line[0]], line[1..];
      assert line == first + rest;
      ReplaceSplits(first, rest, '\\', "\\\\");
      var a, b := ReplaceChar(first, '\\', "\\\\"), ReplaceChar(rest, '\\', "\\\\");
      ReplaceSplits(a, b, '(', "\\(");
      ReplaceSplits(ReplaceChar(a, '(', "\\("), ReplaceChar(b, '(', "\\("), ')', "\\)");
      assert Escape(line) == Escape(first) + Escape(rest);
      EscapeOne(line[0]);
      EscapeIsPerCharacter(rest);
    }
  }

  /** One line of the content stream, 20 units below the line before. */
  function ContentLine(i: nat, line: string): string {
    "BT /F1 12 Tf 50 " + SignedDecimal(770 - 20 * i) + " Td (" + Escape(line) + ") Tj ET"
  }

  /** The content stream of the first `k` lines. */
  function ContentUpTo(lines: seq<string>, k: nat): string
    requires k <= |lines|
  {
    if k == 0 then ""
    else ContentUpTo(lines, k - 1) + (if k == 1 then "" else "\n") + ContentLine(k - 1, lines[k - 1])
  }

  function ContentBody(lines: seq<string>): string {
    ContentUpTo(lines, |lines|)
  }

  // ---- the reader ----

  predicate IsOctal(c: char) {
    '0' <= c <= '7'
  }

  /** How many of the first three characters are octal digits, counting from the start. */
  function OctalLength(s: string): (n: nat)
    ensures n <= |s| && n <= 3
  {
    if s == "" || !IsOctal(s[0]) then 0
    else if |s| == 1 || !IsOctal(s[1]) then 1
    else if |s| == 2 || !IsOctal(s[2]) then 2
    else 3
  }

  function OctalValue(s: string): nat
    requires forall i :: 0 <= i < |s| ==> IsOctal(s[i])
  {
    if s == "" then 0
    else
      assert IsOctal(s[|s| - 1]);
      8 * OctalValue(s[..|s| - 1]) + (s[|s| - 1] as int - '0' as int)
  }

  /** The characters that follow a backslash: what they stand for, and how many
      of them belong to the escape. An unknown escape loses its backslash; a
      backslash at the end of a line joins it with the next. */
  function EscapeSequence(s: string): (r: (string, nat))
    requires s != ""
    ensures 1 <= r.1 <= |s|
  {
    var c := s[0];
    if c == 'n' then ("\n", 1)
    else if c == 'r' then ("\r", 1)
    else if c == 't' then ("\t", 1)
    else if c == 'b' then ([8 as char], 1)
    else if c == 'f' then ([12 as char], 1)
    else if c == '\n' then ("", 1)
    else if c == '\r' then ("", if |s| > 1 && s[1] == '\n' then 2 else 1)
    else if IsOctal(c) then
      var n := OctalLength(s);
      assert forall i :: 0 <= i < n ==> IsOctal(s[..n][i]);
      ([(OctalValue(s[..n]) % 256) as char], n)
    else ([c], 1)
  }

  datatype Literal = Literal(text: string, rest: string)

  function Prepend(text: string, literal: Option<Literal>): Option<Literal> {
    match literal
    case Some(l) => Some(Literal(text + l.text, l.rest))
    case None => None
  }

  /** Reads a literal string, just after its opening parenthesis. Balanced
      parentheses nest; an end-of-line of any kind is read as a line feed. */
  function ReadLiteral(s: string, depth: nat): (r: Option<Literal>)
    ensures r.Some? ==> |r.value.rest| < |s|
    decreases |s|
  {
    if s == "" then None
    else if s[0] == ')' then
      if depth == 0 then Some(Literal("", s[1..])) else Prepend(")", ReadLiteral(s[1..], depth - 1))
    else if s[0] == '(' then Prepend("(", ReadLiteral(s[1..], depth + 1))
    else if s[0] == '\\' then
      if |s| == 1 then None
      else
        var (text, n) := EscapeSequence(s[1..]);
        Prepend(text, ReadLiteral(s[1 + n..], depth))
    else if s[0] == '\r' then
      Prepend("\n", ReadLiteral(s[FirstWidth(s)..], depth))
    else Prepend([s[0]], ReadLiteral(s[1..], depth))
  }

  /** All literal strings of a content stream, in order. */
  function ShownStrings(content: string): Option<seq<string>>
    decreases |content|
  {
    if content == "" then Some([])
    else if content[0] == '(' then
      var literal := ReadLiteral(content[1..], 0);
      if literal.None? then None
      else
        var more := ShownStrings(literal.value.rest);
        if more.None? then None else Some([literal.value.text] + more.value)
    else ShownStrings(content[1..])
  }

  // ---- what reading gives back ----

  /** An escaped character is read as itself. */
  lemma ReadsEscaped(c: char, tail: string)
    requires Special(c)
    ensures ReadLiteral(['\\', c] + tail, 0) == Prepend([c], ReadLiteral(tail, 0))
  {
    var s := ['\\', c] + tail;
    assert s[1..][0] == c && s[2..] == tail;
  }

  /** So is a plain one. */
  lemma ReadsPlain(c: char, tail: string)
    requires !Special(c) && c != '\r'
    ensures ReadLiteral([c] + tail, 0) == Prepend([c], ReadLiteral(tail, 0))
  {
    var s := [c] + tail;
    assert s[0] == c && s[1..] == tail;
  }

  /** A line end of either kind is read as a line feed. */
  lemma ReadsLineEnd(end: string, tail: string)
    requires end == ['\r', '\n'] || (end == ['\r'] && (tail == "" || tail[0] != '\n'))
    ensures ReadLiteral(end + tail, 0) == Prepend("\n", ReadLiteral(tail, 0))
  {
    var s := end + tail;
    assert FirstWidth(s) == |end| && s[|end|..] == tail;
  }

  /** An escaped line, closed by a parenthesis, is read back whole: escaping is
      inverted, and only line ends are normalized. */
  lemma {:induction false} EscapedIsReadBack(line: string, rest: string)
    ensures ReadLiteral(EscapeEach(line) + ")" + rest, 0) == Some(Literal(UniversalNewlines(line), rest))
    decreases |line|
  {
    hide ReadLiteral;
    if line == "" {
      Closes(rest);
    } else {
      var c, n := line[0], FirstWidth(line);
      var tail := EscapeEach(line[n..]) + ")" + rest;
      EscapedIsReadBack(line[n..], rest);
      if n == 2 {
        assert line[1..][1..] == line[2..] && line[1..][0] == '\n';
        assert EscapeEach(line[1..]) == ['\n'] + EscapeEach(line[2..]);
        assert EscapeEach(line) + ")" + rest == ['\r', '\n'] + tail;
        ReadsLineEnd(['\r', '\n'], tail);
      } else if Special(c) {
        assert EscapeEach(line) + ")" + rest == ['\\', c] + tail;
        ReadsEscaped(c, tail);
      } else {
        assert EscapeEach(line) + ")" + rest == [c] + tail;
        if c == '\r' {
          NextIsNoLineFeed(line[1..], rest);
          ReadsLineEnd([c], tail);
        } else {
          ReadsPlain(c, tail);
        }
      }
    }
  }

  lemma Closes(rest: string)
    ensures ReadLiteral(EscapeEach("") + ")" + rest, 0) == Some(Literal("", rest))
  {
    var s := EscapeEach("") + ")" + rest;
    assert s == ")" + rest && s[1..] == rest;
  }

  /** Escaping does not put a line feed where there was none. */
  lemma NextIsNoLineFeed(line: string, rest: string)
    requires line == "" || line[0] != '\n'
    ensures (EscapeEach(line) + ")" + rest)[0] != '\n'
  {
  }

  // ---- whole content streams ----

  lemma {:induction false} SkipPlain(plain: string, rest: string)
    requires '(' !in plain
    ensures ShownStrings(plain + rest) == ShownStrings(rest)
  {
    if plain == "" {
      assert plain + rest == rest;
    } else {
      assert plain == [plain[0]] + plain[1..];
      assert (plain + rest)[0] == plain[0] && (plain + rest)[1..] == plain[1..] + rest;
      assert plain[0] in plain;
      SkipPlain(plain[1..], rest);
    }
  }

  lemma DigitsArePlain(n: int)
    ensures '(' !in SignedDecimal(n)
  {
    if n < 0 {
      assert AllDigits(Decimal(-n));
    }
  }

  lemma LiteralShows(s: string)
    ensures ShownStrings("(" + s)
            == var literal := ReadLiteral(s, 0);
               if literal.None? then None
               else
                 var more := ShownStrings(literal.value.rest);
                 if more.None? then None else Some([literal.value.text] + more.value)
  {
    assert ("(" + s)[0] == '(' && ("(" + s)[1..] == s;
  }

  /** An escaped line between two plain texts shows one string. */
  lemma ShowsOne(head: string, line: string, close: string, rest: string)
    requires '(' !in head && '(' !in close
    ensures ShownStrings(head + ("(" + (Escape(line) + ")" + (close + rest))))
            == var more := ShownStrings(rest); if more.None? then None else Some([UniversalNewlines(line)] + more.value)
  {
    hide ShownStrings, ReadLiteral, UniversalNewlines, EscapeEach, Escape;
    var literal := Escape(line) + ")" + (close + rest);
    EscapeIsPerCharacter(line);
    SkipPlain(head, "(" + literal);
    LiteralShows(literal);
    EscapedIsReadBack(line, close + rest);
    SkipPlain(close, rest);
  }

  /** One line of content shows one string. */
  lemma LineShows(i: nat, line: string, before: string, rest: string)
    requires '(' !in before
    ensures ShownStrings(before + ContentLine(i, line) + rest)
            == var more := ShownStrings(rest); if more.None? then None else Some([UniversalNewlines(line)] + more.value)
  {
    hide ShownStrings, UniversalNewlines, Escape, SignedDecimal;
    var number := SignedDecimal(770 - 20 * i);
    DigitsArePlain(770 - 20 * i);
    var head := before + "BT /F1 12 Tf 50 " + number + " Td ";
    assert '(' !in head;
    assert before + ContentLine(i, line) + rest == head + ("(" + (Escape(line) + ")" + (" Tj ET" + rest)));
    ShowsOne(head, line, " Tj ET", rest);
  }

  function ReadBack(lines: seq<string>): (r: seq<string>)
    ensures |r| == |lines|
  {
    seq(|lines|, i requires 0 <= i < |lines| => UniversalNewlines(lines[i]))
  }

  lemma NothingReadBack(lines: seq<string>)
    requires lines == []
    ensures ReadBack(lines) == []
  {
  }

  lemma ReadBackSnoc(lines: seq<string>, k: nat)
    requires 0 < k <= |lines|
    ensures ReadBack(lines[..k]) == ReadBack(lines[..k - 1]) + [UniversalNewlines(lines[k - 1])]
  {
    hide UniversalNewlines;
  }

  lemma {:induction false} ContentShowsUpTo(lines: seq<string>, k: nat, rest: string)
    requires k <= |lines|
    ensures ShownStrings(ContentUpTo(lines, k) + rest)
            == var more := ShownStrings(rest); if more.None? then None else Some(ReadBack(lines[..k]) + more.value)
  {
    hide ContentLine, ShownStrings, UniversalNewlines, ReadBack;
    if k == 0 {
      assert ContentUpTo(lines, 0) + rest == rest;
      NothingReadBack(lines[..0]);
      var more := ShownStrings(rest);
      assert more.Some? ==> [] + more.value == more.value;
    } else {
      var gap := if k == 1 then "" else "\n";
      var tail := gap + ContentLine(k - 1, lines[k - 1]) + rest;
      assert ContentUpTo(lines, k) + rest == ContentUpTo(lines, k - 1) + tail;
      ContentShowsUpTo(lines, k - 1, tail);
      LineShows(k - 1, lines[k - 1], gap, rest);
      ReadBackSnoc(lines, k);
      var more := ShownStrings(rest);
      if more.Some? {
        assert ReadBack(lines[..k - 1]) + ([UniversalNewlines(lines[k - 1])] + more.value)
            == (ReadBack(lines[..k - 1]) + [UniversalNewlines(lines[k - 1])]) + more.value;
      }
    }
  }

  /** A reader of the content stream sees every line, line ends normalized. */
  lemma ContentShowsLines(lines: seq<string>)
    ensures ShownStrings(ContentBody(lines)) == Some(ReadBack(lines))
  {
    ContentShowsUpTo(lines, |lines|, "");
    assert ContentBody(lines) + "" == ContentBody(lines);
    assert lines[..|lines|] == lines;
    assert ReadBack(lines) + [] == ReadBack(lines);
  }

  /** It sees exactly the lines themselves when none of them has a CR, and only then. */
  lemma LinesSurviveExactly(lines: seq<string>)
    ensures ShownStrings(ContentBody(lines)) == Some(lines)
            <==> forall i :: 0 <= i < |lines| ==> '\r' !in lines[i]
  {
    ContentShowsLines(lines);
    forall i | 0 <= i < |lines|
      ensures ReadBack(lines)[i] == lines[i] <==> '\r' !in lines[i]
    {
      NewlinesExactly(lines[i]);
      assert NoReturns(lines[i]) <==> '\r' !in lines[i];
    }
    if forall i :: 0 <= i < |lines| ==> '\r' !in lines[i] {
      assert ReadBack(lines) == lines;
    }
  }

  // ---- where the lines stand ----

  /** A number with a sign, and what follows it. */
  datatype Signed = Signed(value: int, rest: string)

  function ReadSigned(s: string): Option<Signed> {
    var minus := s != "" && s[0] == '-';
    var digits := if minus then s[1..] else s;
    var n := LeadingDigits(digits);
    if n == 0 then None
    else
      var value: int := ParseDecimal(digits[..n]);
      Some(Signed(if minus then -value else value, digits[n..]))
  }

  datatype Place = Place(x: int, y: int)

  /** Where a text object puts its string: the operands of its `Td`. */
  function ReadPlace(s: string): Option<Place> {
    if |s| < 13 || s[..13] != "BT /F1 12 Tf " then None
    else
      var x := ReadSigned(s[13..]);
      if x.None? || x.value.rest == "" || x.value.rest[0] != ' ' then None
      else
        var y := ReadSigned(x.value.rest[1..]);
        if y.None? || |y.value.rest| < 5 || y.value.rest[..5] != " Td (" then None
        else Some(Place(x.value.value, y.value.value))
  }

  lemma {:induction false} SignedIsRead(n: int, rest: string)
    requires rest == "" || !IsDigit(rest[0])
    ensures ReadSigned(SignedDecimal(n) + rest) == Some(Signed(n, rest))
  {
    hide Decimal, ParseDecimal, LeadingDigits;
    var size: nat := if n < 0 then -n else n;
    var s, d := SignedDecimal(n) + rest, Decimal(size);
    DecimalRoundTrip(size);
    LeadingDigitsOf(d, rest);
    assert IsDigit(d[0]);
    if n < 0 {
      assert s == "-" + (d + rest) && s[1..] == d + rest;
    } else {
      assert s == d + rest;
    }
    assert (d + rest)[..|d|] == d && (d + rest)[|d|..] == rest;
  }

  /** Line `i` stands at the left margin, 20 units below the line before. */
  lemma PlaceIsRead(i: nat, line: string, rest: string)
    ensures ReadPlace(ContentLine(i, line) + rest) == Some(Place(50, 770 - 20 * i))
  {
    hide SignedDecimal, ReadSigned, Escape;
    var y := SignedDecimal(770 - 20 * i);
    var s := ContentLine(i, line) + rest;
    var after := " Td (" + (Escape(line) + ") Tj ET" + rest);
    FiftyInDigits();
    assert "BT /F1 12 Tf 50 " == "BT /F1 12 Tf " + (SignedDecimal(50) + " ");
    assert s == "BT /F1 12 Tf " + (SignedDecimal(50) + (" " + (y + after)));
    assert s[..13] == "BT /F1 12 Tf " && s[13..] == SignedDecimal(50) + (" " + (y + after));
    SignedIsRead(50, " " + (y + after));
    assert (" " + (y + after))[1..] == y + after;
    SignedIsRead(770 - 20 * i, after);
    assert after[..5] == " Td (";
  }

  lemma FiftyInDigits()
    ensures SignedDecimal(50) == "50"
  {
    assert Decimal(5) == "5";
  }

  /** Where line `i` starts in the content stream. */
  function LineStart(lines: seq<string>, i: nat): nat
    requires i < |lines|
  {
    |ContentUpTo(lines, i)| + if i == 0 then 0 else 1
  }

  function PlaceOf(lines: seq<string>, i: nat): Option<Place>
    requires i < |lines|
  {
    var content, start := ContentBody(lines), LineStart(lines, i);
    if start > |content| then None else ReadPlace(content[start..])
  }

  /** Every line of the content stream stands in its place. */
  lemma LinesArePlaced(lines: seq<string>, i: nat)
    requires i < |lines|
    ensures PlaceOf(lines, i) == Some(Place(50, 770 - 20 * i))
  {
    hide ReadPlace, ContentLine;
    var rest := ContentSplits(lines, i, |lines|);
    PlaceIsRead(i, lines[i], rest);
    var front := ContentUpTo(lines, i) + (if i == 0 then "" else "\n");
    assert ContentBody(lines) == front + (ContentLine(i, lines[i]) + rest);
    assert ContentBody(lines)[|front|..] == ContentLine(i, lines[i]) + rest;
  }

  lemma {:induction false} ContentSplits(lines: seq<string>, i: nat, k: nat) returns (rest: string)
    requires i < k <= |lines|
    ensures ContentUpTo(lines, k)
            == ContentUpTo(lines, i) + (if i == 0 then "" else "\n") + (ContentLine(i, lines[i]) + rest)
    decreases k
  {
    hide ContentLine;
    if i == k - 1 {
      rest := "";
    } else {
      var shorter := ContentSplits(lines, i, k - 1);
      rest := shorter + "\n" + ContentLine(k - 1, lines[k - 1]);
    }
  }

  /** The one page of 792 units holds 39 lines: a line stands on it exactly when it
      is one of the first 39, and a longer report runs off its lower edge. */
  lemma OnThePageExactly(lines: seq<string>, i: nat)
    requires i < |lines|
    ensures PlaceOf(lines, i).Some? && (0 <= PlaceOf(lines, i).value.y <= 792 <==> i < 39)
  {
    hide PlaceOf;
    LinesArePlaced(lines, i);
  }

  // ---- wrapping ----

  const WRAP := 90

  /** The pieces of a line, 90 characters each but the last. */
  function Chunks(line: string): seq<string>
    decreases |line|
  {
    if |line| <= WRAP then [line] else [line[..WRAP]] + Chunks(line[WRAP..])
  }

  function Concat(pieces: seq<string>): string {
    if pieces == [] then "" else pieces[0] + Concat(pieces[1..])
  }

  /** Wrapping loses nothing, keeps within the width, and cuts only at the width. */
  lemma {:induction false} ChunksConcatenate(line: string)
    ensures Concat(Chunks(line)) == line
    ensures forall i :: 0 <= i < |Chunks(line)| ==> |Chunks(line)[i]| <= 90
    ensures forall i :: 0 <= i < |Chunks(line)| - 1 ==> |Chunks(line)[i]| == 90
    ensures |Chunks(line)| == if |line| == 0 then 1 else (|line| + 89) / 90
    decreases |line|
  {
    if |line| <= WRAP {
      assert Concat([line]) == line + Concat([]);
    } else {
      ChunksConcatenate(line[WRAP..]);
      assert Chunks(line)[1..] == Chunks(line[WRAP..]);
      assert line == line[..WRAP] + line[WRAP..];
    }
  }

  /** The wrapping of one body line in `render_audit_report`. */
  method WrapLine(line: string) returns (pieces: seq<string>)
    ensures pieces == Chunks(line)
  {
    pieces := [];
    if |line| <= WRAP {
      pieces := pieces + [line];
      return;
    }
    var i := 0;
    while i < |line|
      invariant 0 <= i
      invariant i < |line| ==> pieces + Chunks(line[i..]) == Chunks(line)
      invariant i >= |line| ==> pieces == Chunks(line)
      decreases |line| - i
    {
      var end := if i + WRAP < |line| then i + WRAP else |line|;
      pieces := pieces + [line[i..end]];
      if i + WRAP < |line| {
        assert line[i..][..WRAP] == line[i..end] && line[i..][WRAP..] == line[i + WRAP..];
      } else {
        assert line[i..end] == line[i..];
      }
      i := i + WRAP;
    }
  }
}
