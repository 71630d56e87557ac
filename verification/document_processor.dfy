/** Text extraction of src/document_processor.py: the file type taken from
    the name, dispatch to the PDF, DOCX, TXT or Markdown extractor, the text
    each extractor assembles, and the metadata summary shown beside the
    upload.

    The parsing libraries are not modelled. An upload carries what each of
    them makes of the file's bytes (pages, paragraphs, tables, properties),
    with `None` where the library raises; byte decoding and Markdown
    rendering are oracles. */
module DocumentProcessor {
  import opened Maybe
  import opened Strings

  newtype byte = x: int | 0 <= x < 256

  /* ---------------- the upload ---------------- */

  /** What the PDF reader reads: one entry per page, `None` where the page's
      text extraction raises, and the document information dictionary. */
  datatype PdfFile = PdfFile(pages: seq<Option<string>>, metadata: Metadata)

  datatype Metadata =
    | MetadataRaised                     // reading the dictionary raises
    | NoMetadata                         // the reader reports none
    | Entries(entries: map<string, string>)

  /** A table row is its cells' texts. */
  type Row = seq<string>
  type Table = seq<Row>

  /** What the DOCX reader reads; `core` is `None` where reading the core
      properties raises. */
  datatype DocxFile = DocxFile(paragraphs: seq<string>, tables: seq<Table>, core: Option<CoreProperties>)

  datatype CoreProperties = CoreProperties(title: Option<string>, author: Option<string>)

  /** An uploaded file: its name and size, what the PDF and DOCX readers make
      of it (`None` when they cannot open it), and its unread bytes. */
  datatype Upload = Upload(name: string, size: nat, pdf: Option<PdfFile>, docx: Option<DocxFile>,
                           bytes: seq<byte>)

  /* ---------------- file type and dispatch ---------------- */

  /** `name.lower().split('.')[-1]`: the lower-cased text after the last dot,
      or the whole lower-cased name when it has no dot. */
  function FileType(name: string): (ext: string)
    ensures '.' !in ext
  {
    var lowered := Lower(name);
    match LastIndexOf(lowered, '.')
    case None => lowered
    case Some(i) => lowered[i + 1..]
  }

  /** The file type is the lower-cased last extension: it is the lower-cased
      end of the name, preceded by a dot unless it is the whole name. */
  lemma FileTypeIsLastExtension(name: string)
    ensures var ext := FileType(name);
            && |ext| <= |name| && ext == Lower(name[|name| - |ext|..])
            && (|ext| < |name| ==> name[|name| - |ext| - 1] == '.')
            && ('.' !in name ==> ext == Lower(name))
  {
    match LastIndexOf(Lower(name), '.')
    case None =>
      FileTypeOfDotless(name);
    case Some(i) =>
      FileTypeAfterLastDot(name, i);
      assert |name| - |FileType(name)| == i + 1;
  }

  /** A name without a dot is its own file type, lower-cased. */
  lemma FileTypeOfDotless(name: string)
    requires LastIndexOf(Lower(name), '.').None?
    ensures FileType(name) == Lower(name) && '.' !in name
    ensures name[|name| - |name|..] == name
  {
    LowerKeepsDots(name);
  }

  /** A name whose last dot is at `i` has the lower-cased text after it as
      file type. */
  lemma FileTypeAfterLastDot(name: string, i: nat)
    requires LastIndexOf(Lower(name), '.') == Some(i)
    ensures i < |name| && name[i] == '.'
    ensures FileType(name) == Lower(name[i + 1..])
  {
    var lowered := Lower(name);
    assert lowered[i] == '.';
    assert LowerChar(name[i]) == '.';
    LowerKeepsDots(name);
    LowerOfSuffix(name, i + 1);
  }

  lemma LowerKeepsDots(name: string)
    ensures forall i :: 0 <= i < |name| ==> (Lower(name)[i] == '.' <==> name[i] == '.')
    ensures '.' in Lower(name) <==> '.' in name
  {
    var lowered := Lower(name);
    if '.' in name {
      var i :| 0 <= i < |name| && name[i] == '.';
      assert lowered[i] == '.';
    }
  }

  lemma LowerOfSuffix(name: string, k: nat)
    requires k <= |name|
    ensures Lower(name)[k..] == Lower(name[k..])
  {
  }

  datatype Extractor = PdfExtractor | DocxExtractor | TxtExtractor | MarkdownExtractor

  /** The if-chain of `extract_text_from_document`. */
  function Dispatch(ext: string): Option<Extractor>
  {
    if ext == "pdf" then Some(PdfExtractor)
    else if ext == "doc" || ext == "docx" then Some(DocxExtractor)
    else if ext == "txt" then Some(TxtExtractor)
    else if ext == "md" || ext == "markdown" then Some(MarkdownExtractor)
    else None
  }

  const SupportedExtensions: seq<string> := ["pdf", "doc", "docx", "txt", "md", "markdown"]

  /** `is_supported_file_type`: membership in the supported list, which
      agrees exactly with the dispatch choosing an extractor. */
  function IsSupportedFileType(name: string): (b: bool)
    ensures b <==> Dispatch(FileType(name)).Some?
  {
    FileType(name) in SupportedExtensions
  }

  /* ---------------- PDF ---------------- */

  function PageText(page: Option<string>): string
  {
    if page.Some? then page.value else ""
  }

  function PageTexts(pages: seq<Option<string>>): (texts: seq<string>)
    ensures |texts| == |pages|
    ensures forall k :: 0 <= k < |pages| ==> texts[k] == PageText(pages[k])
  {
    seq(|pages|, k requires 0 <= k < |pages| => PageText(pages[k]))
  }

  predicate AllPagesRead(pages: seq<Option<string>>)
  {
    forall k :: 0 <= k < |pages| ==> pages[k].Some?
  }

  /** Reference definition of the PDF text: `None` when the reader or any
      page raises, otherwise the page texts glued together in page order. */
  function PdfText(pdf: Option<PdfFile>): Option<string>
  {
    if pdf.None? || !AllPagesRead(pdf.value.pages) then None
    else Some(Concat(PageTexts(pdf.value.pages)))
  }

  /** The loop of `extract_text_from_pdf` (test_app.py has the same loop). */
  method ExtractPdfText(pdf: Option<PdfFile>) returns (r: Option<string>)
    ensures r == PdfText(pdf)
  {
    if pdf.None? {
      return None;
    }
    var pages := pdf.value.pages;
    var text := "";
    var i := 0;
    while i < |pages|
      invariant 0 <= i <= |pages|
      invariant AllPagesRead(pages[..i])
      invariant text == Concat(PageTexts(pages[..i]))
    {
      if pages[i].None? {
        assert !AllPagesRead(pages);
        return None;
      }
      assert PageTexts(pages[..i + 1])[..i] == PageTexts(pages[..i]);
      text := text + pages[i].value;
      i := i + 1;
    }
    assert pages[..i] == pages;
    r := Some(text);
  }

  /** Page `k`'s text appears unchanged right after the text of the pages
      before it: no separator, nothing dropped, page order kept. */
  lemma PdfPagesInOrder(pdf: Option<PdfFile>, k: nat)
    requires PdfText(pdf).Some? && k < |pdf.value.pages|
    ensures var texts := PageTexts(pdf.value.pages);
            var off := |Concat(texts[..k])|;
            var page := pdf.value.pages[k].value;
            && off + |page| <= |PdfText(pdf).value|
            && PdfText(pdf).value[off..off + |page|] == page
  {
    ConcatPlacesParts(PageTexts(pdf.value.pages), k);
  }

  /* ---------------- DOCX ---------------- */

  /** A table row as the extractor writes it: every cell followed by a space. */
  function RowLine(cells: Row): string
  {
    Terminated(cells, " ")
  }

  function TableLines(table: Table): (lines: seq<string>)
    ensures |lines| == |table|
    ensures forall j :: 0 <= j < |table| ==> lines[j] == RowLine(table[j])
  {
    seq(|table|, j requires 0 <= j < |table| => RowLine(table[j]))
  }

  /** The row lines of all tables, table by table and row by row. */
  function RowLines(tables: seq<Table>): seq<string>
  {
    if |tables| == 0 then [] else RowLines(tables[..|tables| - 1]) + TableLines(tables[|tables| - 1])
  }

  /** Reference definition of the DOCX text: every paragraph, then every
      table row, each ended by a line break. */
  function DocxText(doc: DocxFile): string
  {
    Terminated(doc.paragraphs + RowLines(doc.tables), "\n")
  }

  /** The loops of `extract_text_from_docx`: every paragraph, then every
      row of every table, each ended by a line break. */
  method ExtractDocxText(docx: Option<DocxFile>) returns (r: Option<string>)
    ensures docx.None? ==> r == None
    ensures docx.Some? ==> r == Some(DocxText(docx.value))
  {
    if docx.None? {
      return None;
    }
    var text := AppendParagraphs(docx.value.paragraphs);
    text := AppendTables(text, docx.value.paragraphs, docx.value.tables);
    r := Some(text);
  }

  /** The paragraph loop: each paragraph followed by a line break. */
  method AppendParagraphs(paragraphs: seq<string>) returns (text: string)
    ensures text == Terminated(paragraphs, "\n")
  {
    text := "";
    var i := 0;
    while i < |paragraphs|
      invariant 0 <= i <= |paragraphs|
      invariant text == Terminated(paragraphs[..i], "\n")
    {
      assert paragraphs[..i + 1][..i] == paragraphs[..i];
      text := text + paragraphs[i] + "\n";
      i := i + 1;
    }
    assert paragraphs[..i] == paragraphs;
  }

  /** The table loop: the rows of each table, table by table. */
  method AppendTables(text: string, ghost done: seq<string>, tables: seq<Table>) returns (out: string)
    requires text == Terminated(done, "\n")
    ensures out == Terminated(done + RowLines(tables), "\n")
  {
    out := text;
    var t := 0;
    assert done + RowLines(tables[..0]) == done;
    while t < |tables|
      invariant 0 <= t <= |tables|
      invariant out == Terminated(done + RowLines(tables[..t]), "\n")
    {
      out := AppendTable(out, done + RowLines(tables[..t]), tables[t]);
      TableStep(done, tables, t);
      t := t + 1;
    }
    assert tables[..t] == tables;
  }

  lemma TableStep(done: seq<string>, tables: seq<Table>, t: nat)
    requires t < |tables|
    ensures done + RowLines(tables[..t + 1]) == done + RowLines(tables[..t]) + TableLines(tables[t])
  {
    assert tables[..t + 1][..t] == tables[..t];
  }

  /** One table: each row's line appended in row order. */
  method AppendTable(text: string, ghost done: seq<string>, table: Table) returns (out: string)
    requires text == Terminated(done, "\n")
    ensures out == Terminated(done + TableLines(table), "\n")
  {
    out := text;
    var rw := 0;
    assert done + TableLines(table[..0]) == done;
    while rw < |table|
      invariant 0 <= rw <= |table|
      invariant out == Terminated(done + TableLines(table[..rw]), "\n")
    {
      out := AppendRow(out, table[rw]);
      RowStep(done, table, rw);
      rw := rw + 1;
    }
    assert table[..rw] == table;
  }

  /** One row: every cell followed by a space, then the line break. */
  method AppendRow(text: string, cells: Row) returns (out: string)
    ensures out == text + RowLine(cells) + "\n"
  {
    out := text;
    var c := 0;
    while c < |cells|
      invariant 0 <= c <= |cells|
      invariant out == text + Terminated(cells[..c], " ")
    {
      assert cells[..c + 1][..c] == cells[..c];
      out := out + cells[c] + " ";
      c := c + 1;
    }
    assert cells[..c] == cells;
    out := out + "\n";
  }

  lemma RowStep(done: seq<string>, table: Table, rw: nat)
    requires rw < |table|
    ensures Terminated(done + TableLines(table[..rw + 1]), "\n")
            == Terminated(done + TableLines(table[..rw]), "\n") + RowLine(table[rw]) + "\n"
  {
    var lines := done + TableLines(table[..rw + 1]);
    assert TableLines(table[..rw + 1]) == TableLines(table[..rw]) + [RowLine(table[rw])];
    assert lines[..|lines| - 1] == done + TableLines(table[..rw]);
  }

  ghost predicate NoBreakInCells(tables: seq<Table>, c: char)
  {
    forall t, rw, k :: 0 <= t < |tables| && 0 <= rw < |tables[t]| && 0 <= k < |tables[t][rw]| ==>
      c !in tables[t][rw][k]
  }

  lemma {:induction false} RowLinesAvoid(tables: seq<Table>, c: char)
    requires NoBreakInCells(tables, c) && c != ' '
    ensures forall j :: 0 <= j < |RowLines(tables)| ==> c !in RowLines(tables)[j]
    decreases |tables|
  {
    if |tables| > 0 {
      var n := |tables| - 1;
      assert NoBreakInCells(tables[..n], c) by {
        forall t, rw, k | 0 <= t < n && 0 <= rw < |tables[..n][t]| && 0 <= k < |tables[..n][t][rw]|
          ensures c !in tables[..n][t][rw][k]
        {
          assert tables[..n][t] == tables[t];
        }
      }
      RowLinesAvoid(tables[..n], c);
      var last := TableLines(tables[n]);
      forall j | 0 <= j < |last| ensures c !in last[j] {
        TerminatedAvoids(tables[n][j], " ", c);
      }
      var all := RowLines(tables);
      assert all == RowLines(tables[..n]) + last;
      forall j | 0 <= j < |all| ensures c !in all[j] {
        if j >= |RowLines(tables[..n])| {
          assert all[j] == last[j - |RowLines(tables[..n])|];
        }
      }
    }
  }

  /** Round trip of the DOCX text: when no paragraph and no cell holds a line
      break, the text's lines are the paragraphs, then one line per table
      row in table order, then the empty piece after the final break. */
  lemma DocxLines(doc: DocxFile)
    requires forall j :: 0 <= j < |doc.paragraphs| ==> '\n' !in doc.paragraphs[j]
    requires NoBreakInCells(doc.tables, '\n')
    ensures SplitOn(DocxText(doc), '\n') == doc.paragraphs + RowLines(doc.tables) + [""]
  {
    RowLinesAvoid(doc.tables, '\n');
    var parts := doc.paragraphs + RowLines(doc.tables);
    forall k | 0 <= k < |parts| ensures '\n' !in parts[k] {
      if k >= |doc.paragraphs| {
        assert parts[k] == RowLines(doc.tables)[k - |doc.paragraphs|];
      }
    }
    SplitTerminated(parts, '\n');
  }

  /** Round trip of one row line: when no cell holds a space, splitting the
      line on spaces gives the cells back, then the empty piece after the
      last space. */
  lemma RowCells(cells: Row)
    requires forall k :: 0 <= k < |cells| ==> ' ' !in cells[k]
    ensures SplitOn(RowLine(cells), ' ') == cells + [""]
  {
    SplitTerminated(cells, ' ');
  }

  /* ---------------- TXT and Markdown decoding ---------------- */

  datatype Encoding = Utf8 | Latin1 | Cp1252 | Iso88591

  const TxtEncodings: seq<Encoding> := [Utf8, Latin1, Cp1252, Iso88591]
  const MarkdownEncodings: seq<Encoding> := [Utf8, Latin1, Cp1252]

  /** `bytes.decode(encoding)`: the text, or `None` where it raises
      `UnicodeDecodeError`. */
  type Decoder = (Encoding, seq<byte>) -> Option<string>

  /** The encoding loop as written: every attempt calls `read()` again, and
      since the first call consumed the stream, every later attempt decodes
      no bytes at all. Once the first encoding fails, the loop is the
      intended one run on the empty content. */
  function DecodeAsWritten(decode: Decoder, encodings: seq<Encoding>, unread: seq<byte>): (r: Option<string>)
    ensures unread == [] ==> r == DecodeFirst(decode, encodings, [])
    ensures |encodings| > 0 && decode(encodings[0], unread).None? ==>
      r == DecodeFirst(decode, encodings[1..], [])
    decreases |encodings|
  {
    if |encodings| == 0 then None
    else match decode(encodings[0], unread)
      case Some(text) => Some(text)
      case None => DecodeAsWritten(decode, encodings[1..], [])
  }

  /** The encoding loop as intended: each encoding in turn tried on the whole
      content, the first success returned, `None` when all fail. */
  function DecodeFirst(decode: Decoder, encodings: seq<Encoding>, bytes: seq<byte>): (r: Option<string>)
    decreases |encodings|
  {
    if |encodings| == 0 then None
    else match decode(encodings[0], bytes)
      case Some(text) => Some(text)
      case None => DecodeFirst(decode, encodings[1..], bytes)
  }

  /** `DecodeFirst` fails exactly when every encoding fails, and otherwise
      returns the text of the first encoding that succeeds. */
  lemma {:induction false} DecodeFirstPicksFirstSuccess(decode: Decoder, encodings: seq<Encoding>,
                                                        bytes: seq<byte>)
    ensures var r := DecodeFirst(decode, encodings, bytes);
            && (r.None? <==> forall k :: 0 <= k < |encodings| ==> decode(encodings[k], bytes).None?)
            && (r.Some? ==>
                  exists k :: 0 <= k < |encodings| && decode(encodings[k], bytes) == r
                    && forall j :: 0 <= j < k ==> decode(encodings[j], bytes).None?)
    decreases |encodings|
  {
    if |encodings| > 0 && decode(encodings[0], bytes).None? {
      DecodeFirstPicksFirstSuccess(decode, encodings[1..], bytes);
      assert forall k :: 1 <= k < |encodings| ==> encodings[1..][k - 1] == encodings[k];
      var r := DecodeFirst(decode, encodings, bytes);
      if r.Some? {
        var k :| 0 <= k < |encodings[1..]| && decode(encodings[1..][k], bytes) == r
                 && forall j :: 0 <= j < k ==> decode(encodings[1..][j], bytes).None?;
        assert decode(encodings[k + 1], bytes) == r;
      }
    }
  }

  /** With a decoder that, like every real codec, turns no bytes into the
      empty text, the as-written TXT loop returns the empty text whenever
      UTF-8 fails, whatever the file holds. */
  lemma FallbackDecodesEmptyStream(decode: Decoder, bytes: seq<byte>)
    requires decode(Utf8, bytes).None?
    requires decode(Latin1, []) == Some("")
    ensures DecodeAsWritten(decode, TxtEncodings, bytes) == Some("")
  {
    assert TxtEncodings[1..][0] == Latin1;
  }

  /** When UTF-8 succeeds both loops return its text. */
  lemma DecodersAgreeOnUtf8(decode: Decoder, encodings: seq<Encoding>, bytes: seq<byte>)
    requires |encodings| > 0 && encodings[0] == Utf8 && decode(Utf8, bytes).Some?
    ensures DecodeAsWritten(decode, encodings, bytes) == DecodeFirst(decode, encodings, bytes)
            == decode(Utf8, bytes)
  {
  }

  /** Latin-1: every byte is the code point of the same value. */
  function Latin1Text(bytes: seq<byte>): string
  {
    seq(|bytes|, i requires 0 <= i < |bytes| => bytes[i] as int as char)
  }

  predicate IsAscii(bytes: seq<byte>)
  {
    forall i :: 0 <= i < |bytes| ==> bytes[i] < 128
  }

  /** A decoder that agrees with the real codecs on ASCII text and on the
      Latin-1 word below: UTF-8 rejects a non-ASCII byte that starts no
      valid sequence, the single-byte encodings map bytes to code points. */
  function ExampleDecoder(e: Encoding, bytes: seq<byte>): Option<string>
  {
    if e == Utf8 && !IsAscii(bytes) then None else Some(Latin1Text(bytes))
  }

  /** "café" saved as Latin-1: the final byte 0xE9 announces a three-byte
      UTF-8 sequence that never comes. */
  const CafeLatin1: seq<byte> := [0x63, 0x61, 0x66, 0xE9]

  /** The discrepancy on a concrete file: the as-written loop yields the
      empty text, the intended loop the word. */
  lemma TxtFallbackLosesContent()
    ensures DecodeAsWritten(ExampleDecoder, TxtEncodings, CafeLatin1) == Some("")
    ensures DecodeFirst(ExampleDecoder, TxtEncodings, CafeLatin1) == Some("caf" + [0xE9 as char])
  {
    assert !IsAscii(CafeLatin1) by {
      assert CafeLatin1[3] >= 128;
    }
    assert Latin1Text([]) == "";
    assert TxtEncodings[1..][0] == Latin1;
    assert Latin1Text(CafeLatin1) == "caf" + [0xE9 as char];
  }

  /** A Markdown renderer: `markdown.markdown`, tag stripping and blank-line
      collapsing together, `None` where they raise. */
  type Renderer = string -> Option<string>

  /* ---------------- extraction ---------------- */

  /** `extract_text_from_document`: the extractor the extension selects, or
      `None` for an unsupported extension; every failure is `None`. */
  function ExtractText(u: Upload, decode: Decoder, render: Renderer): (r: Option<string>)
    ensures !IsSupportedFileType(u.name) ==> r == None
    ensures FileType(u.name) == "pdf" ==> r == PdfText(u.pdf)
    ensures FileType(u.name) in ["doc", "docx"] ==>
      r == (if u.docx.Some? then Some(DocxText(u.docx.value)) else None)
    ensures FileType(u.name) == "txt" ==> r == DecodeFirst(decode, TxtEncodings, u.bytes)
    ensures FileType(u.name) in ["md", "markdown"] ==>
      r == (match DecodeFirst(decode, MarkdownEncodings, u.bytes)
            case None => None
            case Some(md) => render(md))
  {
    match Dispatch(FileType(u.name))
    case None => None
    case Some(PdfExtractor) => PdfText(u.pdf)
    case Some(DocxExtractor) => if u.docx.Some? then Some(DocxText(u.docx.value)) else None
    case Some(TxtExtractor) => DecodeFirst(decode, TxtEncodings, u.bytes)
    case Some(MarkdownExtractor) =>
      match DecodeFirst(decode, MarkdownEncodings, u.bytes)
      case None => None
      case Some(md) => render(md)
  }

  /** `extract_text_from_document` with the TXT and Markdown encoding loops
      as written: it agrees with `ExtractText` on every other type, and on
      TXT and Markdown whenever UTF-8 decodes the content; when UTF-8 fails
      it decodes nothing more than the empty rest of the stream. */
  function ExtractTextAsWritten(u: Upload, decode: Decoder, render: Renderer): (r: Option<string>)
    ensures FileType(u.name) !in ["txt", "md", "markdown"] ==> r == ExtractText(u, decode, render)
    ensures decode(Utf8, u.bytes).Some? ==> r == ExtractText(u, decode, render)
    ensures FileType(u.name) == "txt" && decode(Utf8, u.bytes).None? ==>
      r == DecodeFirst(decode, TxtEncodings[1..], [])
  {
    match Dispatch(FileType(u.name))
    case None => None
    case Some(PdfExtractor) => PdfText(u.pdf)
    case Some(DocxExtractor) => if u.docx.Some? then Some(DocxText(u.docx.value)) else None
    case Some(TxtExtractor) => DecodeAsWritten(decode, TxtEncodings, u.bytes)
    case Some(MarkdownExtractor) =>
      match DecodeAsWritten(decode, MarkdownEncodings, u.bytes)
      case None => None
      case Some(md) => render(md)
  }

  /** A TXT upload holding "café" in Latin-1: the program as written
      extracts the empty text, the intended loop the word. */
  lemma CafeUploadLosesContent(render: Renderer)
    ensures var u := Upload("a.txt", 4, None, None, CafeLatin1);
            && ExtractTextAsWritten(u, ExampleDecoder, render) == Some("")
            && ExtractText(u, ExampleDecoder, render) == Some("caf" + [0xE9 as char])
  {
    var u := Upload("a.txt", 4, None, None, CafeLatin1);
    assert Lower("a.txt") == "a.txt";
    assert LastIndexOf("a.txt", '.') == Some(1);
    assert FileType(u.name) == "txt";
    TxtFallbackLosesContent();
  }

  /* ---------------- document information ---------------- */

  datatype DocumentInfo = DocumentInfo(name: string, size: nat, kind: string, pages: nat,
                                       title: Option<string>, author: Option<string>)

  /** `dict.get(key, 'Unknown')`. */
  function GetOrUnknown(m: map<string, string>, key: string): string
  {
    if key in m then m[key] else "Unknown"
  }

  /** `value or 'Unknown'`. */
  function OrUnknown(value: Option<string>): (r: string)
    ensures r != ""
  {
    if value.Some? && value.value != "" then value.value else "Unknown"
  }

  /** `get_document_info`: name, size, upper-cased extension and zero pages
      by default; the PDF page count and information-dictionary title and
      author; the DOCX paragraph count over 20 and core-property title and
      author. A reader that raises leaves the fields set before it. */
  function GetDocumentInfo(u: Upload): (info: DocumentInfo)
    ensures info.name == u.name && info.size == u.size && info.kind == Upper(FileType(u.name))
    ensures info.title.Some? <==> info.author.Some?
    ensures FileType(u.name) !in ["pdf", "doc", "docx"] ==> info.pages == 0 && info.title == None
    ensures FileType(u.name) == "pdf" ==>
      && (u.pdf.None? ==> info.pages == 0 && info.title == None)
      && (u.pdf.Some? ==> info.pages == |u.pdf.value.pages|)
      && (info.title.Some? <==> u.pdf.Some? && u.pdf.value.metadata.Entries?
                                && |u.pdf.value.metadata.entries| > 0)
    ensures FileType(u.name) in ["doc", "docx"] ==>
      && (u.docx.None? ==> info.pages == 0 && info.title == None)
      && (u.docx.Some? ==> info.pages * 20 <= |u.docx.value.paragraphs| < (info.pages + 1) * 20)
      && (info.title.Some? <==> u.docx.Some? && u.docx.value.core.Some?)
      && (info.title.Some? ==> info.title.value != "" && info.author.value != "")
  {
    var ext := FileType(u.name);
    var base := DocumentInfo(u.name, u.size, Upper(ext), 0, None, None);
    if ext == "pdf" then
      match u.pdf
      case None => base
      case Some(f) =>
        var counted := base.(pages := |f.pages|);
        match f.metadata
        case Entries(m) =>
          if |m| > 0 then counted.(title := Some(GetOrUnknown(m, "/Title")),
                                   author := Some(GetOrUnknown(m, "/Author")))
          else counted
        case _ => counted
    else if ext == "doc" || ext == "docx" then
      match u.docx
      case None => base
      case Some(d) =>
        var counted := base.(pages := |d.paragraphs| / 20);
        match d.core
        case None => counted
        case Some(c) => counted.(title := Some(OrUnknown(c.title)), author := Some(OrUnknown(c.author)))
    else base
  }
}
