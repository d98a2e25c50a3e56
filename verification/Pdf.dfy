/** The one-page PDF of an audit report, from its lines to its bytes and back. */
module Pdf {
  import opened Models
  import opened Text
  import opened PdfText
  import opened PdfReader
  import opened PdfFile

  // ---- the document ----

  // The objects that are the same for every report, entry by entry.
  const CATALOG := ["/Type /Catalog ", "/Pages 2 0 R "]
  const PAGES := ["/Type /Pages ", "/Kids [3 0 R] ", "/Count 1 "]
  const PAGE := ["/Type /Page ", "/Parent 2 0 R ", "/MediaBox [0 0 612 792] ", "/Contents 4 0 R ",
                 "/Resources << ", "/Font << ", "/F1 5 0 R ", ">> ", ">> "]
  const FONT := ["/Type /Font ", "/Subtype /Type1 ", "/BaseFont /Helvetica "]
  const LENGTH_OPEN := "<< /Length "
  const STREAM_OPEN := " >>\nstream\n"
  const STREAM_CLOSE := "\nendstream"

  function StreamObject(content: string): string {
    LENGTH_OPEN + Decimal(|content|) + STREAM_OPEN + content + STREAM_CLOSE
  }

  function Objects(content: string): seq<string> {
    [Dict(CATALOG), Dict(PAGES), Dict(PAGE), StreamObject(content), Dict(FONT)]
  }

  /** `encode("latin-1")` succeeds. */
  predicate Latin1(s: string) {
    forall i :: 0 <= i < |s| ==> s[i] as int < 256
  }

  predicate Encodable(lines: seq<string>) {
    forall i :: 0 <= i < |lines| ==> Latin1(lines[i])
  }

  lemma Latin1Splits(a: string, b: string)
    ensures Latin1(a + b) <==> Latin1(a) && Latin1(b)
  {
    forall i | 0 <= i < |b|
      ensures (a + b)[|a| + i] == b[i]
    {
    }
    if Latin1(a + b) {
      assert forall i :: 0 <= i < |a| ==> (a + b)[i] == a[i];
      forall i | 0 <= i < |b|
        ensures b[i] as int < 256
      {
        assert (a + b)[|a| + i] as int < 256;
      }
    }
  }

  lemma {:induction false} EscapeKeepsLatin1(line: string)
    ensures Latin1(EscapeEach(line)) <==> Latin1(line)
  {
    if line == "" {
    } else {
      EscapeKeepsLatin1(line[1..]);
      var first := if Special(line[0]) then ['\\', line[0]] else [line[0]];
      assert line == [line[0]] + line[1..];
      Latin1Splits([line[0]], line[1..]);
      Latin1Splits(first, EscapeEach(line[1..]));
      assert first[|first| - 1] == line[0];
    }
  }

  lemma DecimalIsLatin1(n: int)
    ensures Latin1(SignedDecimal(n))
  {
    if n < 0 {
      Latin1Splits("-", Decimal(-n));
    }
  }

  /** A content line can be encoded exactly when its text can. */
  lemma ContentLineLatin1(i: nat, line: string)
    ensures Latin1(ContentLine(i, line)) <==> Latin1(line)
  {
    hide Latin1, SignedDecimal, Escape, EscapeEach;
    var head, tail := "BT /F1 12 Tf 50 ", ") Tj ET";
    var number := SignedDecimal(770 - 20 * i);
    assert Latin1(head) && Latin1(" Td (") && Latin1(tail) by {
      ConstantsAreLatin1();
    }
    DecimalIsLatin1(770 - 20 * i);
    EscapeIsPerCharacter(line);
    EscapeKeepsLatin1(line);
    Latin1Splits(head + number + " Td (" + Escape(line), tail);
    Latin1Splits(head + number + " Td (", Escape(line));
    Latin1Splits(head + number, " Td (");
    Latin1Splits(head, number);
  }

  lemma ConstantsAreLatin1()
    ensures Latin1("BT /F1 12 Tf 50 ") && Latin1(" Td (") && Latin1(") Tj ET")
  {
  }

  /** `_build_minimal_pdf`; None is the UnicodeEncodeError of a line that has a
      character outside Latin-1. */
  method BuildMinimalPdf(lines: seq<string>) returns (pdf: Option<string>)
    ensures pdf == if Encodable(lines) then Some(FileText(Objects(ContentBody(lines)))) else None
  {
    hide ContentLine, StreamObject, FileText, Latin1;
    var contentBody := "";
    for i := 0 to |lines|
      invariant contentBody == ContentUpTo(lines, i)
      invariant forall k :: 0 <= k < i ==> Latin1(lines[k])
    {
      var contentLine := ContentLine(i, lines[i]);
      ContentLineLatin1(i, lines[i]);
      if !Latin1(contentLine) {
        return None;
      }
      contentBody := contentBody + (if i == 0 then "" else "\n") + contentLine;
    }
    var objects := [Dict(CATALOG), Dict(PAGES), Dict(PAGE), StreamObject(contentBody), Dict(FONT)];
    var out := WriteFile(objects);
    pdf := Some(out);
  }

  // ---- reading it back ----

  /** A stream object is read: its length first, and then that many bytes. */
  lemma {:induction false} StreamIsRead(objects: seq<string>, i: nat, content: string)
    requires 1 <= i <= |objects| && objects[i - 1] == StreamObject(content)
    requires Offset(objects, |objects|) < 100_0000_0000
    ensures ReadStream(FileText(objects), i) == Some(content)
  {
    hide ReadObject, FindKey, NumberBetween, HasAt, FileText, BodyUpTo, Decimal, ValueAt, ObjectText, StreamObject;
    ObjectIsFound(objects, i);
    StreamText(content);
    OpenIsClear("/Length ");
    ObjectKeyIsFound(objects, i, "<< ", "/Length ", Decimal(|content|) + (STREAM_OPEN + (content + STREAM_CLOSE)));
    var rest := AroundValue(objects, i);
    var head := BodyUpTo(objects, i - 1) + (Decimal(i) + OBJECT_OPEN);
    StreamBytes(head, content, rest);
  }

  lemma StreamText(content: string)
    ensures StreamObject(content)
            == "<< " + "/Length " + (Decimal(|content|) + (STREAM_OPEN + (content + STREAM_CLOSE)))
  {
    hide Decimal;
    LengthText();
    Grouped("<< ", "/Length ", Decimal(|content|), STREAM_OPEN, content, STREAM_CLOSE);
  }

  lemma LengthText()
    ensures LENGTH_OPEN == "<< " + "/Length "
  {
  }

  lemma Grouped(a: string, b: string, c: string, d: string, e: string, f: string)
    ensures (a + b) + c + d + e + f == a + b + (c + (d + (e + f)))
  {
  }

  lemma {:induction false} StreamBytes(head: string, content: string, rest: string)
    ensures var file := head + StreamObject(content) + (OBJECT_CLOSE + rest);
            var length := NumberBetween(file, |head| + 3, "/Length ", " >>\nstream\n");
            && length.Some? && length.value.value == |content|
            && var start := length.value.next;
               && start + |content| <= |file| && file[start..start + |content|] == content
               && HasAt(file, start + |content|, "\nendstream\nendobj\n")
  {
    hide NumberBetween, Decimal, HasAt, StreamObject;
    var number, close := "/Length " + Decimal(|content|) + STREAM_OPEN, STREAM_CLOSE + OBJECT_CLOSE;
    var file := head + StreamObject(content) + (OBJECT_CLOSE + rest);
    StreamText(content);
    CloseText();
    StreamAround(head, "<< ", "/Length ", Decimal(|content|), STREAM_OPEN, content, STREAM_CLOSE, OBJECT_CLOSE, rest);
    NumberIsFound(head + "<< ", "/Length ", |content|, STREAM_OPEN, content + close + rest);
    BytesBetween((head + "<< ") + number, content, close, rest);
  }

  lemma StreamAround(head: string, open: string, key: string, number: string, start: string, content: string,
                     end: string, close: string, rest: string)
    ensures head + (open + key + (number + (start + (content + end)))) + (close + rest)
            == (head + open) + (key + number + start) + (content + (end + close) + rest)
  {
  }

  lemma CloseText()
    ensures STREAM_CLOSE + OBJECT_CLOSE == "\nendstream\nendobj\n"
  {
  }

  lemma BytesBetween(head: string, content: string, close: string, rest: string)
    ensures var file := head + (content + close + rest);
            && file[|head|..|head| + |content|] == content && HasAt(file, |head| + |content|, close)
  {
    hide HasAt;
    var file := head + (content + close + rest);
    assert file == (head + content) + close + rest;
    HasAtMiddle(head + content, close, rest);
  }

  /** The catalog leads to the page tree. */
  lemma CatalogIsRead(content: string)
    ensures var file, at := FileText(Objects(content)), ValueAt(Objects(content), 1);
            FindKey(file, at, "/Type /Catalog ").Some? && ReadKey(file, at, "/Pages ", " 0 R") == Some(2)
  {
    hide FindKey, ReadKey, FileText, ValueAt, StreamObject, Entries, Dict;
    var objects := Objects(content);
    EntryIsFound(objects, 1, CATALOG, 0, "/Type /Catalog ", "");
    assert CATALOG[1] == "/Pages " + Decimal(2) + " 0 R" + " ";
    EntryIsRead(objects, 1, CATALOG, 1, "/Pages ", 2, " 0 R", " ");
  }

  /** Nothing in front of the entries of the page tree looks like them. */
  lemma PagesAreClear()
    ensures AllClear(PAGES, 1, "/Kids [") && AllClear(PAGES, 2, "/Count ")
  {
    assert ClearOf("/Type /Pages ", "/Kids [") && ClearOf("/Type /Pages ", "/Count ");
    assert ClearOf("/Kids [3 0 R] ", "/Count ");
  }

  /** The page tree leads to the one page. */
  lemma {:induction false} PagesAreRead(content: string)
    ensures var file, at := FileText(Objects(content)), ValueAt(Objects(content), 2);
            && FindKey(file, at, "/Type /Pages ").Some?
            && ReadKey(file, at, "/Kids [", " 0 R]") == Some(3) && ReadKey(file, at, "/Count ", " ") == Some(1)
  {
    hide FindKey, ReadKey, FileText, ValueAt, StreamObject, Entries, Dict, ClearOf;
    var objects := Objects(content);
    EntryIsFound(objects, 2, PAGES, 0, "/Type /Pages ", "");
    PagesAreClear();
    DigitsOfThree();
    assert PAGES[1] == "/Kids [" + Decimal(3) + " 0 R]" + " ";
    EntryIsRead(objects, 2, PAGES, 1, "/Kids [", 3, " 0 R]", " ");
    assert PAGES[2] == "/Count " + Decimal(1) + " " + "";
    EntryIsRead(objects, 2, PAGES, 2, "/Count ", 1, " ", "");
  }

  lemma DigitsOfThree()
    ensures Decimal(3) == "3" && Decimal(1) == "1"
  {
  }

  /** The page is one, and knows its parent. */
  lemma PageIsRead(content: string)
    ensures var file, at := FileText(Objects(content)), ValueAt(Objects(content), 3);
            FindKey(file, at, "/Type /Page ").Some? && ReadKey(file, at, "/Parent ", " 0 R") == Some(2)
  {
    hide FindKey, ReadKey, FileText, ValueAt, StreamObject, Entries, Dict;
    var objects := Objects(content);
    EntryIsFound(objects, 3, PAGE, 0, "/Type /Page ", "");
    assert PAGE[1] == "/Parent " + Decimal(2) + " 0 R" + " ";
    EntryIsRead(objects, 3, PAGE, 1, "/Parent ", 2, " 0 R", " ");
  }

  /** Nothing in front of the page's box looks like it, with or without its width. */
  lemma NoBoxBefore()
    ensures AllClear(PAGE, 2, "/MediaBox [0 0 ") && AllClear(PAGE, 2, "/MediaBox [0 0 " + Decimal(612) + " ")
  {
    hide Decimal;
    assert ClearOf("/Type /Page ", "/MediaBox [0 0 ");
    assert ClearOf("/Parent 2 0 R ", "/MediaBox [0 0 ");
    var key := "/MediaBox [0 0 " + Decimal(612) + " ";
    assert key[1] == 'M' && key[3] == 'd';
    assert ClearOf("/Type /Page ", key) && ClearOf("/Parent 2 0 R ", key);
  }

  lemma SizesInDigits()
    ensures Decimal(612) == "612" && Decimal(792) == "792"
  {
    assert Decimal(61) == "61" && Decimal(79) == "79";
  }

  /** It says how large it is. */
  lemma PageSizeIsRead(content: string)
    ensures var file, at := FileText(Objects(content)), ValueAt(Objects(content), 3);
            && ReadKey(file, at, "/MediaBox [0 0 ", " ") == Some(612)
            && ReadKey(file, at, "/MediaBox [0 0 " + Decimal(612) + " ", "]") == Some(792)
  {
    hide FindKey, ReadKey, FileText, ValueAt, StreamObject, Entries, Dict, Decimal, ClearOf;
    var objects := Objects(content);
    NoBoxBefore();
    SizesInDigits();
    assert PAGE[2] == "/MediaBox [0 0 " + Decimal(612) + " " + "792] ";
    EntryIsRead(objects, 3, PAGE, 2, "/MediaBox [0 0 ", 612, " ", "792] ");
    var key := "/MediaBox [0 0 " + Decimal(612) + " ";
    assert PAGE[2] == key + Decimal(792) + "]" + " ";
    EntryIsRead(objects, 3, PAGE, 2, key, 792, "]", " ");
  }

  /** Nothing in front of the contents entry looks like it. */
  lemma NoContentsBefore()
    ensures AllClear(PAGE, 3, "/Contents ")
  {
    assert ClearOf("/Type /Page ", "/Contents ");
    assert ClearOf("/Parent 2 0 R ", "/Contents ");
    assert ClearOf("/MediaBox [0 0 612 792] ", "/Contents ");
  }

  /** It leads to its contents. */
  lemma {:induction false} ContentsAreRead(content: string)
    ensures ReadKey(FileText(Objects(content)), ValueAt(Objects(content), 3), "/Contents ", " 0 R") == Some(4)
  {
    hide FindKey, ReadKey, FileText, ValueAt, StreamObject, Entries, Dict, ClearOf;
    NoContentsBefore();
    assert PAGE[3] == "/Contents " + Decimal(4) + " 0 R" + " ";
    EntryIsRead(Objects(content), 3, PAGE, 3, "/Contents ", 4, " 0 R", " ");
  }

  /** Nothing in front of the font entry looks like it. */
  lemma NoFontBefore()
    ensures AllClear(PAGE, 6, "/F1 ")
  {
    assert ClearOf("/Type /Page ", "/F1 ");
    assert ClearOf("/Parent 2 0 R ", "/F1 ");
    assert ClearOf("/MediaBox [0 0 612 792] ", "/F1 ");
    assert ClearOf("/Contents 4 0 R ", "/F1 ");
    assert ClearOf("/Resources << ", "/F1 ");
    assert ClearOf("/Font << ", "/F1 ");
  }

  /** It leads to its font, */
  lemma {:induction false} FontEntryIsRead(content: string)
    ensures ReadKey(FileText(Objects(content)), ValueAt(Objects(content), 3), "/F1 ", " 0 R") == Some(5)
  {
    hide FindKey, ReadKey, FileText, ValueAt, StreamObject, Entries, Dict, ClearOf;
    assert PAGE[6] == "/F1 " + Decimal(5) + " 0 R" + " ";
    NoFontBefore();
    EntryIsRead(Objects(content), 3, PAGE, 6, "/F1 ", 5, " 0 R", " ");
  }

  /** which is one. */
  lemma FontIsRead(content: string)
    ensures FindKey(FileText(Objects(content)), ValueAt(Objects(content), 5), "/Type /Font ").Some?
  {
    hide FindKey, FileText, ValueAt, StreamObject, Entries, Dict;
    EntryIsFound(Objects(content), 5, FONT, 0, "/Type /Font ", "");
  }

  /** A reader that follows the file from its end over the trailer, the catalog and
      the page tree arrives at the page and at its content stream, byte for byte. */
  lemma ContentReadsBack(content: string)
    requires Offset(Objects(content), 5) < 100_0000_0000
    ensures ReadDocument(FileText(Objects(content))) == Some(Document(612, 792, content))
  {
    hide ReadObject, ReadTrailerKey, FindKey, ReadKey, ReadStream, FileText, ValueAt, StreamObject, Offset, Decimal;
    var objects := Objects(content);
    StartsAsPdf(objects);
    TrailerIsRead(objects);
    ObjectIsFound(objects, 1);
    CatalogIsRead(content);
    ObjectIsFound(objects, 2);
    PagesAreRead(content);
    ObjectIsFound(objects, 3);
    PageIsRead(content);
    PageSizeIsRead(content);
    ContentsAreRead(content);
    FontEntryIsRead(content);
    ObjectIsFound(objects, 5);
    FontIsRead(content);
    StreamIsRead(objects, 4, content);
  }

  lemma StartsAsPdf(objects: seq<string>)
    ensures HasAt(FileText(objects), 0, "%PDF-1.")
  {
    HeaderComesFirst(objects, |objects|);
    assert HEADER[..7] == "%PDF-1.";
    assert FileText(objects)[..7] == BodyUpTo(objects, |objects|)[..7];
  }

  lemma {:induction false} HeaderComesFirst(objects: seq<string>, k: nat)
    requires k <= |objects|
    ensures |BodyUpTo(objects, k)| >= 9 && BodyUpTo(objects, k)[..9] == HEADER
  {
    hide ObjectText;
    if k == 0 {
    } else {
      HeaderComesFirst(objects, k - 1);
    }
  }

  /** What a reader shows: the literal strings of the page's content. */
  function ReadLines(file: string): Option<seq<string>> {
    var document := ReadDocument(file);
    if document.None? then None else ShownStrings(document.value.content)
  }

  /** The whole way round: a reader that follows the file from its end shows the
      lines of a built report, with line ends normalized. */
  lemma PdfRoundTrip(lines: seq<string>)
    requires Offset(Objects(ContentBody(lines)), 5) < 100_0000_0000
    ensures ReadLines(FileText(Objects(ContentBody(lines)))) == Some(ReadBack(lines))
  {
    hide ReadDocument, Objects, ContentBody, ShownStrings;
    ContentReadsBack(ContentBody(lines));
    ContentShowsLines(lines);
  }

  /** The lines themselves come back exactly when none of them has a CR. */
  lemma PdfRoundTripExactly(lines: seq<string>)
    requires Offset(Objects(ContentBody(lines)), 5) < 100_0000_0000
    ensures ReadLines(FileText(Objects(ContentBody(lines)))) == Some(lines)
            <==> forall i :: 0 <= i < |lines| ==> '\r' !in lines[i]
  {
    hide ContentBody, FileText, Objects, ReadDocument, ShownStrings;
    ContentReadsBack(ContentBody(lines));
    LinesSurviveExactly(lines);
  }
}
