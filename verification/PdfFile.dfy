/** A PDF file as bytes: objects, cross-reference table and trailer as the writer
    puts them down, and what a reader finds there. */
module PdfFile {
  import opened Models
  import opened Text
  import opened PdfReader

  // ---- the writer ----

  const HEADER := "%PDF-1.4\n"
  const OBJECT_OPEN := " 0 obj\n"
  const OBJECT_CLOSE := "\nendobj\n"
  const XREF_OPEN := "xref\n0 "
  const LINE_END := "\n"
  const FREE_ROW := "0000000000 65535 f \n"
  const ROW_END := " 00000 n \n"
  const TRAILER_OPEN := "trailer\n<< /Size "
  const TRAILER_ROOT := " /Root 1 0 R >>\n"
  const STARTXREF := "startxref\n"
  const END_OF_FILE := "\n%%EOF\n"

  function ObjectText(i: nat, content: string): string {
    Decimal(i) + OBJECT_OPEN + content + OBJECT_CLOSE
  }

  /** The header and the first `k` objects, which are numbered from one. */
  function BodyUpTo(objects: seq<string>, k: nat): string
    requires k <= |objects|
  {
    if k == 0 then HEADER else BodyUpTo(objects, k - 1) + ObjectText(k, objects[k - 1])
  }

  /** The byte at which object `i` starts. */
  function Offset(objects: seq<string>, i: nat): nat
    requires 1 <= i <= |objects|
  {
    |BodyUpTo(objects, i - 1)|
  }

  function RowText(offset: nat): string {
    ZeroPadded(10, offset) + ROW_END
  }

  function RowsUpTo(objects: seq<string>, k: nat): string
    requires k <= |objects|
  {
    if k == 0 then "" else RowsUpTo(objects, k - 1) + RowText(Offset(objects, k))
  }

  function TableHead(size: nat): string {
    XREF_OPEN + Decimal(size) + LINE_END
  }

  function XrefText(objects: seq<string>): string {
    TableHead(|objects| + 1) + FREE_ROW + RowsUpTo(objects, |objects|)
  }

  function TrailerText(size: nat, xrefOffset: nat): string {
    TRAILER_OPEN + Decimal(size) + TRAILER_ROOT + STARTXREF + Decimal(xrefOffset) + END_OF_FILE
  }

  function FileText(objects: seq<string>): string {
    var body := BodyUpTo(objects, |objects|);
    body + XrefText(objects) + TrailerText(|objects| + 1, |body|)
  }

  /** The second half of `_build_minimal_pdf`: offsets are taken from the length
      of what has been written so far. */
  method WriteFile(objects: seq<string>) returns (out: string)
    ensures out == FileText(objects)
  {
    hide ObjectText, RowText, TableHead, TrailerText;
    out := HEADER;
    var offsets: seq<nat> := [];
    for k := 0 to |objects|
      invariant out == BodyUpTo(objects, k)
      invariant |offsets| == k
      invariant forall i :: 1 <= i <= k ==> offsets[i - 1] == Offset(objects, i)
    {
      offsets := offsets + [|out|];
      out := out + ObjectText(k + 1, objects[k]);
    }
    var xrefOffset := |out|;
    var table := TableHead(|objects| + 1) + FREE_ROW;
    for k := 0 to |offsets|
      invariant table == TableHead(|objects| + 1) + FREE_ROW + RowsUpTo(objects, k)
    {
      table := table + RowText(offsets[k]);
      Associate(TableHead(|objects| + 1) + FREE_ROW, RowsUpTo(objects, k), RowText(offsets[k]));
    }
    out := out + table;
    out := out + TrailerText(|objects| + 1, xrefOffset);
  }

  lemma Associate(a: string, b: string, c: string)
    ensures (a + b) + c == a + (b + c)
  {
  }

  // ---- the end of the file ----

  lemma StartXrefIsFound(front: string, size: nat, x: nat)
    ensures ReadStartXref(front + TrailerText(size, x)) == Some(x)
  {
    hide Decimal, ReadStartXref;
    var lead := front + (TRAILER_OPEN + Decimal(size) + TRAILER_ROOT);
    assert front + TrailerText(size, x) == (lead + STARTXREF) + Decimal(x) + END_OF_FILE;
    LastNumberIsRead(lead, x);
  }

  lemma LastNumberIsRead(lead: string, x: nat)
    ensures ReadStartXref((lead + STARTXREF) + Decimal(x) + END_OF_FILE) == Some(x)
  {
    hide Decimal, ParseDecimal, TrailingDigits, HasAt;
    var front, d := lead + STARTXREF, Decimal(x);
    var text := front + d;
    var file := text + END_OF_FILE;
    assert |END_OF_FILE| == 7 && |STARTXREF| == 10;
    assert file[..|file| - 7] == text && file[|file| - 7..] == END_OF_FILE;
    assert front[|front| - 1] == '\n';
    TrailingDigitsOf(front, d);
    assert file == lead + STARTXREF + (d + END_OF_FILE);
    HasAtMiddle(lead, STARTXREF, d + END_OF_FILE);
    assert text[|front|..] == d;
    DecimalRoundTrip(x);
  }

  // ---- the table ----

  lemma RowIsTwenty(offset: nat)
    ensures |RowText(offset)| == 20 <==> offset < 100_0000_0000
  {
    assert Pow10(10) == 100_0000_0000;
    DecimalLength(offset, 10);
  }

  lemma {:induction false} OffsetsGrow(objects: seq<string>, i: nat, k: nat)
    requires 1 <= i <= k <= |objects|
    ensures Offset(objects, i) <= Offset(objects, k)
    ensures |BodyUpTo(objects, i)| <= |BodyUpTo(objects, k)|
    decreases k
  {
    if i == k {
    } else {
      OffsetsGrow(objects, i, k - 1);
    }
  }

  /** Every row is 20 bytes wide, so row `i` is where the reader looks for it. */
  lemma {:induction false} RowsAreRegular(objects: seq<string>, k: nat, i: nat)
    requires 1 <= i <= k <= |objects|
    requires Offset(objects, k) < 100_0000_0000
    ensures |RowsUpTo(objects, k)| == 20 * k
    ensures RowsUpTo(objects, k)[20 * (i - 1)..20 * i] == RowText(Offset(objects, i))
    decreases k
  {
    hide RowText, Offset;
    RowIsTwenty(Offset(objects, k));
    var rows := RowsUpTo(objects, k - 1);
    if k > 1 {
      OffsetsGrow(objects, k - 1, k);
      RowsAreRegular(objects, k - 1, if i < k then i else k - 1);
    }
    if i < k {
      assert RowsUpTo(objects, k)[20 * (i - 1)..20 * i] == rows[20 * (i - 1)..20 * i];
    } else {
      assert RowsUpTo(objects, k)[20 * (k - 1)..20 * k] == RowText(Offset(objects, k));
    }
  }

  lemma RowIsRead(file: string, at: nat, offset: nat)
    requires offset < 100_0000_0000 && HasAt(file, at, RowText(offset))
    ensures ReadRow(file, at) == InUse(offset, 0)
  {
    hide Decimal;
    RowIsTwenty(offset);
    var digits, row := ZeroPadded(10, offset), RowText(offset);
    assert |digits| == 10;
    assert row[..10] == digits && row[10] == ROW_END[0] && row[11..16] == ROW_END[1..6] == Zeros(5);
    assert row[16] == ROW_END[6] && row[17] == ROW_END[7] && row[18..] == ROW_END[8..] == " \n";
    ZeroPaddedRoundTrip(10, offset);
    LeadingZeros(5, "");
    assert Zeros(5) + "" == Zeros(5);
  }

  /** The body of the file and the table head in front of the rows. */
  function BeforeRows(objects: seq<string>): string {
    BodyUpTo(objects, |objects|) + TableHead(|objects| + 1)
  }

  /** The file as its reader meets it. */
  lemma FileLayout(objects: seq<string>)
    ensures FileText(objects)
            == BeforeRows(objects) + FREE_ROW + RowsUpTo(objects, |objects|)
               + TrailerText(|objects| + 1, |BodyUpTo(objects, |objects|)|)
    ensures |FREE_ROW| == 20
  {
    hide BodyUpTo, RowsUpTo, TrailerText, TableHead;
  }

  lemma TableIsRead(objects: seq<string>)
    ensures ReadTable(FileText(objects)) == Some(Table(0, |objects| + 1, |BeforeRows(objects)|))
  {
    hide Decimal, BodyUpTo, RowsUpTo, TrailerText, ReadStartXref, NumberBetween;
    var n := |objects|;
    var body := BodyUpTo(objects, n);
    var rest := FREE_ROW + RowsUpTo(objects, n) + TrailerText(n + 1, |body|);
    assert FileText(objects) == body + TableHead(n + 1) + rest;
    StartXrefIsFound(body + XrefText(objects), n + 1, |body|);
    TableHeadIsRead(body, n + 1, rest);
  }

  /** The table head says that its first object is number zero, and how many there are. */
  lemma TableHeadIsRead(body: string, size: nat, rest: string)
    ensures var file := body + TableHead(size) + rest;
            && NumberBetween(file, |body|, "xref\n", " ") == Some(Number(0, |body| + 7))
            && NumberBetween(file, |body| + 7, "", "\n") == Some(Number(size, |body| + |TableHead(size)|))
  {
    hide NumberBetween, Decimal;
    var file := body + TableHead(size) + rest;
    DecimalZero();
    assert XREF_OPEN == "xref\n" + Decimal(0) + " ";
    assert file == body + ("xref\n" + Decimal(0) + " ") + (Decimal(size) + "\n" + rest);
    NumberIsFound(body, "xref\n", 0, " ", Decimal(size) + "\n" + rest);
    assert file == (body + XREF_OPEN) + ("" + Decimal(size) + "\n") + rest;
    NumberIsFound(body + XREF_OPEN, "", size, "\n", rest);
  }

  lemma DecimalZero()
    ensures Decimal(0) == "0"
  {
  }

  /** Following `startxref` and the table reaches the byte where the object starts. */
  lemma RowLeadsToObject(objects: seq<string>, i: nat)
    requires 1 <= i <= |objects| && Offset(objects, |objects|) < 100_0000_0000
    ensures ReadObjectRow(FileText(objects), i) == InUse(Offset(objects, i), 0)
  {
    hide ReadTable, RowText, ReadRow, BodyUpTo, RowsUpTo, TrailerText, BeforeRows, TableHead, FileText, Offset;
    FileLayout(objects);
    var n := |objects|;
    var file := FileText(objects);
    var head := BeforeRows(objects);
    var rows := RowsUpTo(objects, n);
    TableIsRead(objects);
    OffsetsGrow(objects, i, n);
    RowsAreRegular(objects, n, i);
    var at := |head| + 20 * i;
    assert file[at..at + 20] == rows[20 * (i - 1)..20 * i];
    RowIsTwenty(Offset(objects, i));
    RowIsRead(file, at, Offset(objects, i));
  }

  lemma FreeRowIsRead(objects: seq<string>)
    ensures ReadObjectRow(FileText(objects), 0) == Free
  {
    hide ReadTable, ReadRow, BodyUpTo, RowsUpTo, TrailerText, BeforeRows, FileText;
    FileLayout(objects);
    var n := |objects|;
    var head := BeforeRows(objects);
    var rest := RowsUpTo(objects, n) + TrailerText(n + 1, |BodyUpTo(objects, n)|);
    TableIsRead(objects);
    assert FileText(objects) == head + FREE_ROW + rest;
    HasAtMiddle(head, FREE_ROW, rest);
    FreeRow(FileText(objects), |head|);
  }

  lemma FreeRow(file: string, at: nat)
    requires HasAt(file, at, FREE_ROW)
    ensures ReadRow(file, at) == Free
  {
    assert |FREE_ROW| == 20;
    assert FREE_ROW[..10] == Zeros(10) && FREE_ROW[10] == ' ' && AllDigits(FREE_ROW[11..16]);
    assert FREE_ROW[16] == ' ' && FREE_ROW[17] == 'f' && FREE_ROW[18..] == " \n";
  }

  // ---- the objects ----

  lemma {:induction false} BodySplits(objects: seq<string>, i: nat, k: nat) returns (rest: string)
    requires 1 <= i <= k <= |objects|
    ensures BodyUpTo(objects, k) == BodyUpTo(objects, i - 1) + ObjectText(i, objects[i - 1]) + rest
    decreases k
  {
    hide ObjectText;
    if i == k {
      rest := "";
    } else {
      var shorter := BodySplits(objects, i, k - 1);
      rest := shorter + ObjectText(k, objects[k - 1]);
    }
  }

  /** Where the value of object `i` starts. */
  function ValueAt(objects: seq<string>, i: nat): nat
    requires 1 <= i <= |objects|
  {
    Offset(objects, i) + |Decimal(i) + OBJECT_OPEN|
  }

  /** The file around the value of an object. */
  lemma AroundValue(objects: seq<string>, i: nat) returns (rest: string)
    requires 1 <= i <= |objects|
    ensures var head := BodyUpTo(objects, i - 1) + (Decimal(i) + OBJECT_OPEN);
            && |head| == ValueAt(objects, i)
            && FileText(objects) == head + objects[i - 1] + (OBJECT_CLOSE + rest)
  {
    hide BodyUpTo, XrefText, TrailerText, Decimal;
    var n := |objects|;
    var more := BodySplits(objects, i, n);
    rest := more + (XrefText(objects) + TrailerText(n + 1, |BodyUpTo(objects, n)|));
  }

  /** The reader finds where the value of an object starts. */
  lemma ObjectIsFound(objects: seq<string>, i: nat)
    requires 1 <= i <= |objects| && Offset(objects, |objects|) < 100_0000_0000
    ensures ReadObject(FileText(objects), i) == Some(ValueAt(objects, i))
  {
    hide ReadObjectRow, NumberBetween, Decimal, BodyUpTo, FileText;
    RowLeadsToObject(objects, i);
    var rest := AroundValue(objects, i);
    var front, file := BodyUpTo(objects, i - 1), FileText(objects);
    var more := objects[i - 1] + (OBJECT_CLOSE + rest);
    DecimalZero();
    assert OBJECT_OPEN == " " + (Decimal(0) + " obj\n");
    assert file == front + ("" + Decimal(i) + " ") + ((Decimal(0) + " obj\n") + more);
    NumberIsFound(front, "", i, " ", (Decimal(0) + " obj\n") + more);
    assert file == (front + (Decimal(i) + " ")) + ("" + Decimal(0) + " obj\n") + more;
    NumberIsFound(front + (Decimal(i) + " "), "", 0, " obj\n", more);
  }

  /** A number behind a key of an object is read. */
  lemma {:induction false} ObjectKeyIsRead(objects: seq<string>, i: nat, pre: string, key: string, n: nat,
                                           after: string, post: string)
    requires 1 <= i <= |objects| && objects[i - 1] == pre + (key + Decimal(n) + after) + post
    requires ClearOf(pre, key) && after != "" && !IsDigit(after[0])
    ensures ReadKey(FileText(objects), ValueAt(objects, i), key, after) == Some(n)
  {
    hide ReadKey, Decimal, BodyUpTo, FileText, ClearOf;
    var rest := AroundValue(objects, i);
    var head := BodyUpTo(objects, i - 1) + (Decimal(i) + OBJECT_OPEN);
    var dict := pre + (key + Decimal(n) + after);
    assert FileText(objects) == head + dict + (post + (OBJECT_CLOSE + rest));
    KeyIsRead(head, pre, key, n, after, post + (OBJECT_CLOSE + rest));
  }

  /** A key of an object is found. */
  lemma {:induction false} ObjectKeyIsFound(objects: seq<string>, i: nat, pre: string, key: string, post: string)
    requires 1 <= i <= |objects| && objects[i - 1] == pre + key + post && ClearOf(pre, key)
    ensures FindKey(FileText(objects), ValueAt(objects, i), key) == Some(ValueAt(objects, i) + |pre|)
  {
    hide FindKey, Decimal, BodyUpTo, FileText, ClearOf;
    var rest := AroundValue(objects, i);
    var head := BodyUpTo(objects, i - 1) + (Decimal(i) + OBJECT_OPEN);
    assert FileText(objects) == head + (pre + key) + (post + (OBJECT_CLOSE + rest));
    HasAtMiddle(head, pre + key, post + (OBJECT_CLOSE + rest));
    KeyIsFound(FileText(objects), |head|, pre, key);
  }

  // ---- the trailer ----

  /** The reader finds the trailer behind the last row. */
  lemma TrailerIsFound(objects: seq<string>)
    requires objects != [] && Offset(objects, |objects|) < 100_0000_0000
    ensures var front := BeforeRows(objects) + FREE_ROW + RowsUpTo(objects, |objects|);
            && FileText(objects) == front + TrailerText(|objects| + 1, |BodyUpTo(objects, |objects|)|)
            && TrailerAt(FileText(objects)) == Some(|front| + |"trailer\n"|)
  {
    hide Decimal, ReadTable, BodyUpTo, RowsUpTo, BeforeRows, TableHead, FileText, Offset, TrailerText, HasAt;
    FileLayout(objects);
    var n := |objects|;
    var front := BeforeRows(objects) + FREE_ROW + RowsUpTo(objects, n);
    TableIsRead(objects);
    RowsAreRegular(objects, n, n);
    TrailerStands(front, n + 1, |BodyUpTo(objects, n)|);
  }

  lemma TrailerStands(front: string, size: nat, x: nat)
    ensures HasAt(front + TrailerText(size, x), |front|, "trailer\n<<")
  {
    hide Decimal, TrailerText, TrailerEnd, HasAt;
    TrailerPieces(size, x);
    var rest := ("/Size " + Decimal(size) + " ") + ("/Root " + Decimal(1) + " 0 R") + TrailerEnd(x);
    assert "trailer\n" + "<< " == "trailer\n<<" + " ";
    assert front + TrailerText(size, x) == front + "trailer\n<<" + (" " + rest);
    HasAtMiddle(front, "trailer\n<<", " " + rest);
  }

  /** It says how many rows the table has, and that the root is object one. */
  lemma TrailerIsRead(objects: seq<string>)
    requires objects != [] && Offset(objects, |objects|) < 100_0000_0000
    ensures ReadTrailerKey(FileText(objects), "/Size ", " ") == Some(|objects| + 1)
    ensures ReadTrailerKey(FileText(objects), "/Root ", " 0 R") == Some(1)
  {
    hide TrailerAt, ReadKey, BeforeRows, RowsUpTo, FileText, BodyUpTo, Decimal;
    TrailerIsFound(objects);
    var front := BeforeRows(objects) + FREE_ROW + RowsUpTo(objects, |objects|);
    TrailerKeys(front, |objects| + 1, |BodyUpTo(objects, |objects|)|);
  }

  lemma TrailerKeys(front: string, size: nat, x: nat)
    ensures var file := front + TrailerText(size, x);
            && ReadKey(file, |front| + |"trailer\n"|, "/Size ", " ") == Some(size)
            && ReadKey(file, |front| + |"trailer\n"|, "/Root ", " 0 R") == Some(1)
  {
    hide ReadKey, Decimal, TrailerText, ClearOf;
    TrailerPieces(size, x);
    SizeIsClear(size);
    TwoKeys(front, "trailer\n", "<< ", "/Size ", size, " ", "/Root ", 1, " 0 R", TrailerEnd(x));
  }

  function TrailerEnd(x: nat): string {
    " >>\n" + STARTXREF + Decimal(x) + END_OF_FILE
  }

  lemma TrailerPieces(size: nat, x: nat)
    ensures TrailerText(size, x)
            == "trailer\n"
               + ("<< " + ("/Size " + Decimal(size) + " ") + ("/Root " + Decimal(1) + " 0 R") + TrailerEnd(x))
  {
    hide Decimal;
    TrailerLiterals();
    Grouped("trailer\n", "<< ", "/Size ", Decimal(size), " ", "/Root " + Decimal(1) + " 0 R", " >>\n",
            STARTXREF, Decimal(x), END_OF_FILE);
  }

  lemma TrailerLiterals()
    ensures TRAILER_OPEN == "trailer\n" + ("<< " + "/Size ")
    ensures TRAILER_ROOT == " " + (("/Root " + Decimal(1) + " 0 R") + " >>\n")
  {
    assert Decimal(1) == "1";
  }

  lemma Grouped(a: string, b: string, c: string, d: string, e: string, f: string, g: string,
                h: string, i: string, j: string)
    ensures (a + (b + c)) + d + (e + (f + g)) + h + i + j == a + (b + (c + d + e) + f + (g + h + i + j))
  {
  }

  /** Two entries of a dictionary, one behind the other, are both read. */
  lemma {:induction false} TwoKeys(front: string, lead: string, open: string, key: string, n: nat, after: string,
                                   key': string, n': nat, after': string, end: string)
    requires ClearOf(open, key) && after != "" && !IsDigit(after[0])
    requires ClearOf(open + (key + Decimal(n) + after), key') && after' != "" && !IsDigit(after'[0])
    ensures var entry, entry' := key + Decimal(n) + after, key' + Decimal(n') + after';
            var file := front + (lead + (open + entry + entry' + end));
            && ReadKey(file, |front| + |lead|, key, after) == Some(n)
            && ReadKey(file, |front| + |lead|, key', after') == Some(n')
  {
    hide ReadKey, Decimal, ClearOf;
    var entry, entry' := key + Decimal(n) + after, key' + Decimal(n') + after';
    var file := front + (lead + (open + entry + entry' + end));
    assert file == (front + lead) + (open + entry) + (entry' + end);
    KeyIsRead(front + lead, open, key, n, after, entry' + end);
    assert file == (front + lead) + ((open + entry) + entry') + end;
    KeyIsRead(front + lead, open + entry, key', n', after', end);
  }

  lemma SizeIsClear(size: nat)
    ensures ClearOf("<< ", "/Size ") && ClearOf("<< " + ("/Size " + Decimal(size) + " "), "/Root ")
  {
    hide Decimal;
    var entry := "/Size " + Decimal(size) + " ";
    forall p | 0 < p < |entry|
      ensures ClearAt(entry, p, "/Root ")
    {
      if 6 <= p < |entry| - 1 {
        assert entry[p] == Decimal(size)[p - 6];
      }
    }
    assert ClearAt(entry, 0, "/Root ");
    assert ClearOf("<< ", "/Root ") && ClearOf(entry, "/Root ");
    ClearConcat("<< ", entry, "/Root ");
  }

  // ---- dictionaries ----

  /** A dictionary object: its entries, one after the other. */
  function Entries(entries: seq<string>): string {
    if entries == [] then "" else Entries(entries[..|entries| - 1]) + entries[|entries| - 1]
  }

  function Dict(entries: seq<string>): string {
    "<< " + Entries(entries) + ">>"
  }

  ghost predicate AllClear(entries: seq<string>, k: nat, key: string)
    requires k <= |entries|
  {
    forall j :: 0 <= j < k ==> ClearOf(entries[j], key)
  }

  lemma {:induction false} EntriesAround(entries: seq<string>, k: nat, key: string) returns (post: string)
    requires k < |entries| && AllClear(entries, k, key) && |key| >= 4 && key[0] == '/'
    ensures Entries(entries) == Entries(entries[..k]) + entries[k] + post
    ensures ClearOf("<< " + Entries(entries[..k]), key)
    decreases |entries|
  {
    var n := |entries| - 1;
    if k == n {
      post := "";
      EntriesAreClear(entries, k, key);
    } else {
      assert entries[..n][..k] == entries[..k];
      var shorter := EntriesAround(entries[..n], k, key);
      post := shorter + entries[n];
    }
  }

  lemma {:induction false} EntriesAreClear(entries: seq<string>, k: nat, key: string)
    requires k <= |entries| && AllClear(entries, k, key) && |key| >= 4 && key[0] == '/'
    ensures ClearOf("<< " + Entries(entries[..k]), key)
  {
    hide ClearOf;
    if k == 0 {
      assert "<< " + Entries(entries[..0]) == "<< ";
      OpenIsClear(key);
    } else {
      assert entries[..k][..k - 1] == entries[..k - 1];
      EntriesAreClear(entries, k - 1, key);
      ClearConcat("<< " + Entries(entries[..k - 1]), entries[k - 1], key);
      assert "<< " + Entries(entries[..k]) == ("<< " + Entries(entries[..k - 1])) + entries[k - 1];
    }
  }

  lemma OpenIsClear(key: string)
    requires |key| >= 4 && key[0] == '/'
    ensures ClearOf("<< ", key)
  {
  }

  /** A number in an entry of a dictionary object is read. */
  lemma {:induction false} EntryIsRead(objects: seq<string>, i: nat, entries: seq<string>, k: nat,
                    key: string, n: nat, after: string, post: string)
    requires 1 <= i <= |objects| && objects[i - 1] == Dict(entries)
    requires k < |entries| && entries[k] == key + Decimal(n) + after + post && AllClear(entries, k, key)
    requires |key| >= 4 && key[0] == '/' && after != "" && !IsDigit(after[0])
    ensures ReadKey(FileText(objects), ValueAt(objects, i), key, after) == Some(n)
  {
    hide ReadKey, Decimal, FileText, ValueAt, ClearOf, Entries;
    var more := EntriesAround(entries, k, key);
    var pre := "<< " + Entries(entries[..k]);
    assert Dict(entries) == pre + (key + Decimal(n) + after) + (post + (more + ">>"));
    ObjectKeyIsRead(objects, i, pre, key, n, after, post + (more + ">>"));
  }

  /** So is a key. */
  lemma {:induction false} EntryIsFound(objects: seq<string>, i: nat, entries: seq<string>, k: nat,
                                        key: string, post: string)
    requires 1 <= i <= |objects| && objects[i - 1] == Dict(entries)
    requires k < |entries| && entries[k] == key + post && AllClear(entries, k, key)
    requires |key| >= 4 && key[0] == '/'
    ensures FindKey(FileText(objects), ValueAt(objects, i), key).Some?
  {
    hide FindKey, FileText, ValueAt, ClearOf, Entries;
    var more := EntriesAround(entries, k, key);
    var pre := "<< " + Entries(entries[..k]);
    assert Dict(entries) == pre + key + (post + (more + ">>"));
    ObjectKeyIsFound(objects, i, pre, key, post + (more + ">>"));
  }

  /** Reading back works for any objects: every object is found, by the table, at
      the byte where its value stands; row zero is the free one; and the trailer
      says how many rows there are. */
  lemma FileReadsBack(objects: seq<string>)
    requires objects != [] && Offset(objects, |objects|) < 100_0000_0000
    ensures forall i :: 1 <= i <= |objects| ==>
              && ReadObjectRow(FileText(objects), i) == InUse(Offset(objects, i), 0)
              && ReadObject(FileText(objects), i) == Some(ValueAt(objects, i))
              && HasAt(FileText(objects), ValueAt(objects, i), objects[i - 1] + "\nendobj\n")
    ensures ReadObjectRow(FileText(objects), 0) == Free
    ensures ReadTable(FileText(objects)).Some? && ReadTable(FileText(objects)).value.first == 0
    ensures ReadTable(FileText(objects)).value.count == |objects| + 1
    ensures ReadTrailerKey(FileText(objects), "/Size ", " ") == Some(|objects| + 1)
  {
    hide ReadObjectRow, ReadObject, ReadTable, ReadTrailerKey, HasAt, FileText, ValueAt, Offset, BodyUpTo, Decimal;
    forall i | 1 <= i <= |objects|
      ensures ReadObjectRow(FileText(objects), i) == InUse(Offset(objects, i), 0)
      ensures ReadObject(FileText(objects), i) == Some(ValueAt(objects, i))
      ensures HasAt(FileText(objects), ValueAt(objects, i), objects[i - 1] + "\nendobj\n")
    {
      RowLeadsToObject(objects, i);
      ObjectIsFound(objects, i);
      var rest := AroundValue(objects, i);
      var head := BodyUpTo(objects, i - 1) + (Decimal(i) + OBJECT_OPEN);
      assert FileText(objects) == head + (objects[i - 1] + OBJECT_CLOSE) + rest;
      HasAtMiddle(head, objects[i - 1] + OBJECT_CLOSE, rest);
    }
    FreeRowIsRead(objects);
    TableIsRead(objects);
    TrailerIsRead(objects);
  }
}
