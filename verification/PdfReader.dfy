/** A reader of PDF files, by sections 7.3.8, 7.5.4 and 7.5.5 of ISO 32000-1: it
    starts at the end of the file and knows nothing of how the file was written.
    Latin-1 text is one byte a character, so a file is a string and a byte offset
    is an index. */
module PdfReader {
  import opened Models
  import opened Text

  predicate HasAt(file: string, at: nat, text: string) {
    at + |text| <= |file| && file[at..at + |text|] == text
  }

  /** How many digits a text starts with. */
  function LeadingDigits(s: string): (n: nat)
    ensures n <= |s| && AllDigits(s[..n])
  {
    if s == "" || !IsDigit(s[0]) then 0
    else
      var n := LeadingDigits(s[1..]);
      assert forall i :: 1 <= i < 1 + n ==> s[i] == s[1..][..n][i - 1];
      1 + n
  }

  /** Where the digits at the end of a text start. */
  function TrailingDigits(s: string): (n: nat)
    ensures n <= |s| && AllDigits(s[n..])
  {
    if s == "" || !IsDigit(s[|s| - 1]) then |s|
    else
      var n := TrailingDigits(s[..|s| - 1]);
      assert forall i :: n <= i < |s| - 1 ==> s[i] == s[..|s| - 1][n..][i - n];
      n
  }

  /** A number and the place after it. */
  datatype Number = Number(value: nat, next: nat)

  /** Reads a decimal number that stands between two given texts. */
  function NumberBetween(file: string, at: nat, before: string, after: string): Option<Number> {
    if !HasAt(file, at, before) then None
    else
      var rest := file[at + |before|..];
      var n := LeadingDigits(rest);
      if n == 0 || !HasAt(file, at + |before| + n, after) then None
      else Some(Number(ParseDecimal(rest[..n]), at + |before| + n + |after|))
  }

  // ---- the table ----

  /** The byte offset that the end of the file announces. */
  function ReadStartXref(file: string): Option<nat> {
    if |file| < 7 || file[|file| - 7..] != "\n%%EOF\n" then None
    else
      var text := file[..|file| - 7];
      var n := TrailingDigits(text);
      if n == |text| || n < 10 || !HasAt(file, n - 10, "startxref\n") then None
      else Some(ParseDecimal(text[n..]))
  }

  /** The cross-reference table: the number of its first object, how many rows it
      has, and where they start. */
  datatype Table = Table(first: nat, count: nat, rows: nat)

  function ReadTable(file: string): Option<Table> {
    var start := ReadStartXref(file);
    if start.None? then None
    else
      var first := NumberBetween(file, start.value, "xref\n", " ");
      if first.None? then None
      else
        var count := NumberBetween(file, first.value.next, "", "\n");
        if count.None? then None else Some(Table(first.value.value, count.value.value, count.value.next))
  }

  datatype Row = InUse(offset: nat, generation: nat) | Free | Malformed

  /** A row is 20 bytes: ten digits, five digits, a letter, and a line end of two. */
  function ReadRow(file: string, at: nat): Row {
    if at + 20 > |file| then Malformed
    else
      var row := file[at..at + 20];
      if !AllDigits(row[..10]) || row[10] != ' ' || !AllDigits(row[11..16]) || row[16] != ' '
         || row[18..] != " \n" then Malformed
      else if row[17] == 'n' then InUse(ParseDecimal(row[..10]), ParseDecimal(row[11..16]))
      else if row[17] == 'f' then Free
      else Malformed
  }

  /** The row of object `i`. */
  function ReadObjectRow(file: string, i: nat): Row {
    var table := ReadTable(file);
    if table.None? || i < table.value.first || i >= table.value.first + table.value.count then Malformed
    else ReadRow(file, table.value.rows + 20 * (i - table.value.first))
  }

  /** Where the value of object `i` starts, behind its number and generation. */
  function ReadObject(file: string, i: nat): Option<nat> {
    var row := ReadObjectRow(file, i);
    if !row.InUse? then None
    else
      var number := NumberBetween(file, row.offset, "", " ");
      if number.None? || number.value.value != i then None
      else
        var generation := NumberBetween(file, number.value.next, "", " obj\n");
        if generation.None? || generation.value.value != row.generation then None else Some(generation.value.next)
  }

  // ---- dictionaries ----

  /** Where a key first stands at or behind `at`, before the object or the trailer ends. */
  function FindKey(file: string, at: nat, key: string): Option<nat>
    decreases |file| - at
  {
    if HasAt(file, at, key) then Some(at)
    else if at >= |file| || HasAt(file, at, "\nendobj") || HasAt(file, at, "\nstartxref") then None
    else FindKey(file, at + 1, key)
  }

  /** The number behind a key. */
  function ReadKey(file: string, at: nat, key: string, after: string): Option<nat> {
    var place := FindKey(file, at, key);
    if place.None? then None
    else
      var number := NumberBetween(file, place.value, key, after);
      if number.None? then None else Some(number.value.value)
  }

  /** Where the trailer's dictionary starts, behind the last row. */
  function TrailerAt(file: string): Option<nat> {
    var table := ReadTable(file);
    if table.None? || !HasAt(file, table.value.rows + 20 * table.value.count, "trailer\n<<") then None
    else Some(table.value.rows + 20 * table.value.count + 8)
  }

  function ReadTrailerKey(file: string, key: string, after: string): Option<nat> {
    var at := TrailerAt(file);
    if at.None? then None else ReadKey(file, at.value, key, after)
  }

  /** The object with a number, where it starts, if it is of the given type. */
  function ReadTyped(file: string, i: Option<nat>, typeEntry: string): Option<nat> {
    if i.None? then None
    else
      var at := ReadObject(file, i.value);
      if at.None? || FindKey(file, at.value, typeEntry).None? then None else at
  }

  /** As many bytes of a stream object as its length says. */
  function ReadStream(file: string, i: nat): Option<string> {
    var at := ReadObject(file, i);
    if at.None? then None
    else
      var place := FindKey(file, at.value, "/Length ");
      if place.None? then None
      else
        var length := NumberBetween(file, place.value, "/Length ", " >>\nstream\n");
        if length.None? then None
        else
          var start, end := length.value.next, length.value.next + length.value.value;
          if end > |file| || !HasAt(file, end, "\nendstream\nendobj\n") then None else Some(file[start..end])
  }

  // ---- the document ----

  /** A document of one page: its size and its content stream. */
  datatype Document = Document(width: nat, height: nat, content: string)

  /** From the root in the trailer over the page tree to the first and only page,
      its font and its contents. */
  function ReadDocument(file: string): Option<Document> {
    var catalog := ReadTyped(file, ReadTrailerKey(file, "/Root ", " 0 R"), "/Type /Catalog ");
    if !HasAt(file, 0, "%PDF-1.") || catalog.None? then None
    else
      var tree := ReadKey(file, catalog.value, "/Pages ", " 0 R");
      var pages := ReadTyped(file, tree, "/Type /Pages ");
      if pages.None? || ReadKey(file, pages.value, "/Count ", " ") != Some(1) then None
      else
        var page := ReadTyped(file, ReadKey(file, pages.value, "/Kids [", " 0 R]"), "/Type /Page ");
        if page.None? || ReadKey(file, page.value, "/Parent ", " 0 R") != tree then None
        else ReadPage(file, page.value)
  }

  function ReadPage(file: string, page: nat): Option<Document> {
    var font := ReadTyped(file, ReadKey(file, page, "/F1 ", " 0 R"), "/Type /Font ");
    var contents := ReadKey(file, page, "/Contents ", " 0 R");
    var width := ReadKey(file, page, "/MediaBox [0 0 ", " ");
    if font.None? || contents.None? || width.None? then None
    else
      var height := ReadKey(file, page, "/MediaBox [0 0 " + Decimal(width.value) + " ", "]");
      var content := ReadStream(file, contents.value);
      if height.None? || content.None? then None else Some(Document(width.value, height.value, content.value))
  }

  // ---- finding what was written ----

  lemma HasAtMiddle(a: string, b: string, c: string)
    ensures HasAt(a + b + c, |a|, b)
  {
    assert (a + b + c)[|a|..|a| + |b|] == b;
  }

  lemma {:induction false} LeadingDigitsOf(d: string, rest: string)
    requires AllDigits(d) && (rest == "" || !IsDigit(rest[0]))
    ensures LeadingDigits(d + rest) == |d|
  {
    if d == "" {
      assert d + rest == rest;
    } else {
      assert (d + rest)[1..] == d[1..] + rest && (d + rest)[0] == d[0];
      LeadingDigitsOf(d[1..], rest);
    }
  }

  lemma {:induction false} TrailingDigitsOf(front: string, d: string)
    requires AllDigits(d) && (front == "" || !IsDigit(front[|front| - 1]))
    ensures TrailingDigits(front + d) == |front|
  {
    if d == "" {
      assert front + d == front;
    } else {
      var s := front + d;
      assert s[..|s| - 1] == front + d[..|d| - 1] && s[|s| - 1] == d[|d| - 1];
      TrailingDigitsOf(front, d[..|d| - 1]);
    }
  }

  /** A printed number is found between the texts it was printed between. */
  lemma NumberIsFound(front: string, before: string, n: nat, after: string, rest: string)
    requires after != "" && !IsDigit(after[0])
    ensures NumberBetween(front + (before + Decimal(n) + after) + rest, |front|, before, after)
            == Some(Number(n, |front| + |before| + |Decimal(n)| + |after|))
  {
    hide Decimal, ParseDecimal, NumberBetween;
    DigitsAreFound(front, before, Decimal(n), after, rest);
    DecimalRoundTrip(n);
  }

  lemma {:induction false} DigitsAreFound(front: string, before: string, d: string, after: string, rest: string)
    requires d != "" && AllDigits(d) && after != "" && !IsDigit(after[0])
    ensures NumberBetween(front + (before + d + after) + rest, |front|, before, after)
            == Some(Number(ParseDecimal(d), |front| + |before| + |d| + |after|))
  {
    hide ParseDecimal, LeadingDigits, HasAt, NumberBetween;
    Pieces(front, before, d, after, rest);
    LeadingDigitsOf(d, after + rest);
    LeadingPart(d, after + rest);
    DigitsBetween(front + (before + d + after) + rest, |front|, before, d, after, d + (after + rest));
  }

  lemma LeadingPart(d: string, rest: string)
    ensures (d + rest)[..|d|] == d
  {
  }

  lemma {:induction false} DigitsBetween(file: string, at: nat, before: string, d: string, after: string, tail: string)
    requires d != "" && AllDigits(d) && LeadingDigits(tail) == |d| && |d| <= |tail| && tail[..|d|] == d
    requires HasAt(file, at, before) && HasAt(file, at + |before| + |d|, after)
    requires at + |before| <= |file| && file[at + |before|..] == tail
    ensures NumberBetween(file, at, before, after) == Some(Number(ParseDecimal(d), at + |before| + |d| + |after|))
  {
    hide ParseDecimal, LeadingDigits, HasAt;
  }

  lemma Pieces(front: string, before: string, d: string, after: string, rest: string)
    ensures var file := front + (before + d + after) + rest;
            && HasAt(file, |front|, before) && HasAt(file, |front| + |before| + |d|, after)
            && file[|front| + |before|..] == d + (after + rest)
  {
    hide HasAt;
    var file := front + (before + d + after) + rest;
    assert file == front + before + (d + after + rest);
    HasAtMiddle(front, before, d + after + rest);
    assert file == (front + before + d) + after + rest;
    HasAtMiddle(front + before + d, after, rest);
  }

  // ---- finding keys ----

  /** Neither the key nor an end starts here: there is no line feed, and behind a
      slash the second or the fourth character of the key is missing. */
  predicate ClearAt(text: string, p: nat, key: string)
    requires p < |text| && |key| >= 4
  {
    && text[p] != '\n'
    && (text[p] == '/' ==> p + 3 < |text| && (text[p + 1] != key[1] || text[p + 3] != key[3]))
  }

  ghost predicate ClearOf(pre: string, key: string) {
    |key| >= 4 && key[0] == '/' && forall p :: 0 <= p < |pre| ==> ClearAt(pre, p, key)
  }

  lemma ClearConcat(a: string, b: string, key: string)
    requires ClearOf(a, key) && ClearOf(b, key)
    ensures ClearOf(a + b, key)
  {
    forall p | 0 <= p < |a + b|
      ensures ClearAt(a + b, p, key)
    {
      assert if p < |a| then ClearAt(a, p, key) else ClearAt(b, p - |a|, key);
    }
  }

  lemma {:induction false} KeyIsFound(file: string, at: nat, pre: string, key: string)
    requires ClearOf(pre, key) && HasAt(file, at, pre + key)
    ensures FindKey(file, at, key) == Some(at + |pre|)
    decreases |pre|
  {
    if pre == "" {
      assert pre + key == key;
    } else {
      assert ClearAt(pre, 0, key);
      OneFurther(file, at, pre, key);
      NotHere(file, at, key);
      KeyIsFound(file, at + 1, pre[1..], key);
    }
  }

  /** One place further on there is one character less in front of the key. */
  lemma OneFurther(file: string, at: nat, pre: string, key: string)
    requires pre != "" && ClearOf(pre, key) && HasAt(file, at, pre + key)
    ensures at < |file| && ClearAt(file, at, key)
    ensures HasAt(file, at + 1, pre[1..] + key) && ClearOf(pre[1..], key)
  {
    var all := pre + key;
    assert all[1..] == pre[1..] + key;
    assert file[at + 1..at + 1 + |all| - 1] == file[at..at + |all|][1..];
    assert ClearAt(pre, 0, key);
    assert file[at] == file[at..at + |all|][0] == pre[0];
    if pre[0] == '/' {
      assert file[at + 1] == file[at..at + |all|][1] == pre[1];
      assert file[at + 3] == file[at..at + |all|][3] == pre[3];
    }
    forall p | 0 <= p < |pre| - 1
      ensures ClearAt(pre[1..], p, key)
    {
      assert ClearAt(pre, p + 1, key);
    }
  }

  /** A text does not stand where one of its characters does not. */
  lemma NotHere(file: string, at: nat, key: string)
    requires at < |file| && |key| >= 4 && key[0] == '/' && ClearAt(file, at, key)
    ensures !HasAt(file, at, key) && !HasAt(file, at, "\nendobj") && !HasAt(file, at, "\nstartxref")
  {
    if at + |key| <= |file| {
      assert file[at..at + |key|][0] == file[at] && file[at..at + |key|][1] == file[at + 1];
      assert file[at..at + |key|][3] == file[at + 3];
    }
    if at + 7 <= |file| {
      assert file[at..at + 7][0] == file[at];
    }
    if at + 10 <= |file| {
      assert file[at..at + 10][0] == file[at];
    }
  }

  /** A number behind a key is read. */
  lemma {:induction false} KeyIsRead(front: string, pre: string, key: string, n: nat, after: string, rest: string)
    requires ClearOf(pre, key) && after != "" && !IsDigit(after[0])
    ensures ReadKey(front + (pre + (key + Decimal(n) + after)) + rest, |front|, key, after) == Some(n)
  {
    hide Decimal, FindKey, NumberBetween, ClearOf, HasAt;
    var file := front + (pre + (key + Decimal(n) + after)) + rest;
    assert file == front + (pre + key) + (Decimal(n) + after + rest);
    HasAtMiddle(front, pre + key, Decimal(n) + after + rest);
    KeyIsFound(file, |front|, pre, key);
    assert file == (front + pre) + (key + Decimal(n) + after) + rest;
    NumberIsFound(front + pre, key, n, after, rest);
  }
}
