/** The report writer: URL helpers that derive the file name and extension
    columns, the escaping and sanitising applied to every text value, and the
    XlsxBuilder that lays out the single SpreadsheetML worksheet (ECMA-376
    Part 1, section 18.3.1) and decides which package parts are written. */
module Writer {
  import opened Wrappers
  import opened Text
  import UrlParse

  // ------------------------------------------------------------ URL helpers

  /** `url_extension`: the extension of the last path segment, lower-cased and
      without its dot. The path is read as it is, without percent-decoding;
      when `urlparse` raised (`None`) the result is empty. */
  function UrlExtension(parsed: Option<UrlParse.UrlParts>): string
  {
    match parsed
    case None => ""
    case Some(p) => Lower(ExtensionText(p.path))
  }

  /** The extension of the last segment of `path` without its leading dots. */
  function ExtensionText(path: string): string
  {
    LStripDots(SplitExt(Basename(path)).1)
  }

  lemma ExtensionTextShape(path: string)
    ensures '.' !in ExtensionText(path) && '/' !in ExtensionText(path)
  {
    var ext := SplitExt(Basename(path)).1;
    if ext != [] {
      var u := ext[1..];
      assert '.' !in u;
      assert u == [] || u[0] != '.';
      assert LStripDots(u) == u;
    }
  }

  /** The extension comes without its dot, holds no further dot or slash,
      and is lower-case. */
  lemma UrlExtensionShape(parsed: Option<UrlParse.UrlParts>)
    ensures var r := UrlExtension(parsed);
      '.' !in r && '/' !in r && forall i :: 0 <= i < |r| ==> !IsUpper(r[i])
  {
    if parsed.Some? {
      var t := ExtensionText(parsed.value.path);
      ExtensionTextShape(parsed.value.path);
      LowerKeeps(t, '.');
      LowerKeeps(t, '/');
    }
  }

  /** `url_filename_no_ext`: the last path segment, percent-decoded, with its
      extension removed. */
  function UrlFilenameNoExt(parsed: Option<UrlParse.UrlParts>): string
  {
    match parsed
    case None => ""
    case Some(p) => FilenameText(p.path)
  }

  function FilenameText(path: string): (r: string)
    ensures IsPrefix(r, UrlParse.Unquote(Basename(path)))
  {
    var name := UrlParse.Unquote(Basename(path));
    assert SplitExt(name).0 == name[..|SplitExt(name).0|];
    SplitExt(name).0
  }

  predicate IsPrefix(a: string, b: string)
  {
    |a| <= |b| && b[..|a|] == a
  }

  lemma ExtensionTextOfName(dir: string, stem: string, ext: string)
    requires dir == [] || dir[|dir| - 1] == '/'
    requires '/' !in stem && '/' !in ext && '.' !in ext
    requires !AllDots(stem)
    ensures ExtensionText(dir + stem + "." + ext) == ext
  {
    var seg := stem + "." + ext;
    assert '/' !in seg;
    calc {
      ExtensionText(dir + stem + "." + ext);
      { assert dir + stem + "." + ext == dir + seg; }
      LStripDots(SplitExt(Basename(dir + seg)).1);
      { AfterLastAppend(dir, seg, '/'); }
      LStripDots(SplitExt(seg).1);
      { SegmentExtension(stem, ext); }
      ext;
    }
  }

  lemma SegmentExtension(stem: string, ext: string)
    requires '/' !in stem && '/' !in ext && '.' !in ext
    requires !AllDots(stem)
    ensures LStripDots(SplitExt(stem + "." + ext).1) == ext
  {
    SplitExtName([], stem, ext);
    assert [] + stem + "." + ext == stem + "." + ext;
    assert ("." + ext)[1..] == ext;
    assert ext == [] || ext[0] != '.';
  }

  /** A last segment `stem.ext` whose stem is not only dots has extension
      `ext`, lower-cased, whatever directories come before it. */
  lemma UrlExtensionOfName(p: UrlParse.UrlParts, dir: string, stem: string, ext: string)
    requires p.path == dir + stem + "." + ext
    requires dir == [] || dir[|dir| - 1] == '/'
    requires '/' !in stem && '/' !in ext && '.' !in ext
    requires !AllDots(stem)
    ensures UrlExtension(Some(p)) == Lower(ext)
  {
    ExtensionTextOfName(dir, stem, ext);
  }

  /** A last segment without a dot has no extension. */
  lemma UrlExtensionNoDot(p: UrlParse.UrlParts)
    requires '.' !in Basename(p.path)
    ensures UrlExtension(Some(p)) == ""
  {
    var b := Basename(p.path);
    assert LastIndexOf(b, '.') == -1;
  }

  /** The file name column decodes percent-escapes: a last segment that is
      the percent-encoding of `seg` gives the stem of `seg` itself. */
  lemma FilenameDecodesSegment(p: UrlParse.UrlParts, dir: string, seg: string, safe: set<char>)
    requires UrlParse.ValidSafe(safe) && '/' !in safe
    requires p.path == dir + UrlParse.Quote(seg, safe)
    requires dir == [] || dir[|dir| - 1] == '/'
    ensures UrlFilenameNoExt(Some(p)) == SplitExt(seg).0
  {
    FilenameTextDecodes(dir, seg, safe);
  }

  lemma FilenameTextDecodes(dir: string, seg: string, safe: set<char>)
    requires UrlParse.ValidSafe(safe) && '/' !in safe
    requires dir == [] || dir[|dir| - 1] == '/'
    ensures FilenameText(dir + UrlParse.Quote(seg, safe)) == SplitExt(seg).0
  {
    var q := UrlParse.Quote(seg, safe);
    UrlParse.QuoteAvoids(seg, safe, '/');
    AfterLastAppend(dir, q, '/');
    UrlParse.UnquoteQuote(seg, safe);
  }

  // ------------------------------------------------------------ text values

  function OrEmpty(s: Option<string>): string { s.GetOr("") }

  /** `excel_quote`: doubles every `"` so the text can sit inside a string
      literal of a formula; `None` gives the empty string. */
  function ExcelQuote(s: Option<string>): (r: string)
    ensures |r| == |OrEmpty(s)| + CountQuotes(OrEmpty(s))
  {
    DoubleQuotes(OrEmpty(s))
  }

  function DoubleQuotes(s: string): (r: string)
    ensures |r| == |s| + CountQuotes(s)
  {
    if s == [] then []
    else (if s[0] == '"' then "\"\"" else [s[0]]) + DoubleQuotes(s[1..])
  }

  function CountQuotes(s: string): nat
  {
    if s == [] then 0 else (if s[0] == '"' then 1 else 0) + CountQuotes(s[1..])
  }

  /** How a formula string literal is read: `""` stands for one `"`. */
  function CollapseQuotes(s: string): string
  {
    if s == [] then []
    else if |s| >= 2 && s[0] == '"' && s[1] == '"' then "\"" + CollapseQuotes(s[2..])
    else [s[0]] + CollapseQuotes(s[1..])
  }

  /** Collapsing the doubled quotes recovers the text. */
  lemma {:induction false} CollapseDoubleQuotes(s: string)
    ensures CollapseQuotes(DoubleQuotes(s)) == s
  {
    if s != [] {
      var rest := DoubleQuotes(s[1..]);
      if s[0] == '"' {
        assert ("\"\"" + rest)[2..] == rest;
      } else {
        assert ([s[0]] + rest)[1..] == rest;
      }
      CollapseDoubleQuotes(s[1..]);
    }
  }

  /** The `Char` production of section 2.2 of XML 1.0, restricted to the
      Basic Multilingual Plane as `xml_sanitize` checks it. */
  predicate IsXmlChar(c: char)
  {
    c == '\t' || c == '\n' || c == '\r' ||
    ('\U{20}' <= c <= '\U{D7FF}') || ('\U{E000}' <= c <= '\U{FFFD}')
  }

  /** The characters of `s` that `xml_sanitize` keeps, in order. */
  function Sanitized(s: string): string
  {
    if s == [] then []
    else Sanitized(s[..|s| - 1]) + (if IsXmlChar(s[|s| - 1]) then [s[|s| - 1]] else [])
  }

  /** `xml_sanitize`: walks the text and keeps the characters XML allows. */
  method XmlSanitize(s: Option<string>) returns (r: string)
    ensures r == Sanitized(OrEmpty(s))
    ensures forall i :: 0 <= i < |r| ==> IsXmlChar(r[i])
    ensures IsSubsequence(r, OrEmpty(s))
  {
    if s.None? {
      return "";
    }
    var t := s.value;
    var out := [];
    for i := 0 to |t|
      invariant out == Sanitized(t[..i])
    {
      assert t[..i + 1][..i] == t[..i];
      if IsXmlChar(t[i]) {
        out := out + [t[i]];
      }
    }
    assert t[..|t|] == t;
    SanitizedValid(t);
    SanitizedSubsequence(t);
    return out;
  }

  lemma {:induction false} SanitizedValid(s: string)
    ensures forall i :: 0 <= i < |Sanitized(s)| ==> IsXmlChar(Sanitized(s)[i])
  {
    if s != [] {
      SanitizedValid(s[..|s| - 1]);
    }
  }

  lemma {:induction false} SanitizedSubsequence(s: string)
    ensures IsSubsequence(Sanitized(s), s)
  {
    if s != [] {
      var init := s[..|s| - 1];
      SanitizedSubsequence(init);
      if !IsXmlChar(s[|s| - 1]) {
        assert Sanitized(s) == Sanitized(init);
        SubsequenceDropLast(Sanitized(init), s);
      } else {
        var r := Sanitized(s);
        assert r[..|r| - 1] == Sanitized(init);
      }
    }
  }

  /** Text that is already clean passes unchanged. */
  lemma {:induction false} SanitizedClean(s: string)
    requires forall i :: 0 <= i < |s| ==> IsXmlChar(s[i])
    ensures Sanitized(s) == s
  {
    if s != [] {
      SanitizedClean(s[..|s| - 1]);
    }
  }

  /** Sanitising twice is sanitising once. */
  lemma SanitizedIdempotent(s: string)
    ensures Sanitized(Sanitized(s)) == Sanitized(s)
  {
    SanitizedValid(s);
    SanitizedClean(Sanitized(s));
  }

  function EscapeChar(c: char): string
  {
    if c == '&' then "&amp;" else if c == '<' then "&lt;" else if c == '>' then "&gt;" else [c]
  }

  /** `xml.sax.saxutils.escape` (section 2.4 of XML 1.0): `&`, `<` and `>`
      become entity references; quotes are left as they are. */
  function XmlEscape(s: string): (r: string)
    ensures '<' !in r && '>' !in r
    ensures |r| >= |s|
  {
    if s == [] then [] else EscapeChar(s[0]) + XmlEscape(s[1..])
  }

  function EscapeAttrChar(c: char): string
  {
    if c == '"' then "&quot;" else EscapeChar(c)
  }

  /** Escaping for a value written between double quotes in an attribute:
      as `XmlEscape`, and `"` becomes `&quot;`. */
  function XmlEscapeAttr(s: string): (r: string)
    ensures '<' !in r && '>' !in r && '"' !in r
  {
    if s == [] then [] else EscapeAttrChar(s[0]) + XmlEscapeAttr(s[1..])
  }

  /** What an XML reader makes of character data: the entity references
      `&amp;`, `&lt;`, `&gt;` and `&quot;` are replaced by their characters. */
  function XmlUnescape(s: string): string
  {
    if s == [] then []
    else if StartsWith(s, "&amp;") then "&" + XmlUnescape(s[5..])
    else if StartsWith(s, "&lt;") then "<" + XmlUnescape(s[4..])
    else if StartsWith(s, "&gt;") then ">" + XmlUnescape(s[4..])
    else if StartsWith(s, "&quot;") then "\"" + XmlUnescape(s[6..])
    else [s[0]] + XmlUnescape(s[1..])
  }

  lemma UnescapeStep(e: string, c: char, rest: string)
    requires e == EscapeChar(c) || e == EscapeAttrChar(c)
    ensures XmlUnescape(e + rest) == [c] + XmlUnescape(rest)
  {
    var s := e + rest;
    if c == '&' {
      assert s[..5] == "&amp;" && s[5..] == rest;
    } else if c == '<' {
      assert s[..4] == "&lt;" && s[4..] == rest;
      assert !StartsWith(s, "&amp;") by { assert s[1] == 'l'; }
    } else if c == '>' {
      assert s[..4] == "&gt;" && s[4..] == rest;
      assert !StartsWith(s, "&amp;") && !StartsWith(s, "&lt;") by { assert s[1] == 'g'; }
    } else if c == '"' && e == "&quot;" {
      assert s[..6] == "&quot;" && s[6..] == rest;
      assert !StartsWith(s, "&amp;") && !StartsWith(s, "&lt;") && !StartsWith(s, "&gt;") by {
        assert s[1] == 'q';
      }
    } else {
      assert e == [c];
      assert s[0] == c && s[1..] == rest;
      assert !StartsWith(s, "&amp;") && !StartsWith(s, "&lt;") && !StartsWith(s, "&gt;") &&
        !StartsWith(s, "&quot;") by { assert s[0] != '&'; }
    }
  }

  /** A reader recovers the text that `XmlEscape` wrote. */
  lemma {:induction false} UnescapeEscape(s: string)
    ensures XmlUnescape(XmlEscape(s)) == s
  {
    if s != [] {
      UnescapeStep(EscapeChar(s[0]), s[0], XmlEscape(s[1..]));
      UnescapeEscape(s[1..]);
    }
  }

  /** A reader recovers the text that `XmlEscapeAttr` wrote. */
  lemma {:induction false} UnescapeEscapeAttr(s: string)
    ensures XmlUnescape(XmlEscapeAttr(s)) == s
  {
    if s != [] {
      UnescapeStep(EscapeAttrChar(s[0]), s[0], XmlEscapeAttr(s[1..]));
      UnescapeEscapeAttr(s[1..]);
    }
  }

  /** `pixels_to_col_width` without its rounding to two decimals:
      `max(0, (pixels - 5) / 7)`. */
  function PixelsToColWidth(pixels: int): (r: real)
    ensures r >= 0.0
    ensures r == 0.0 <==> pixels <= 5
    ensures pixels > 5 ==> 7.0 * r + 5.0 == pixels as real
  {
    if pixels - 5 > 0 then (pixels - 5) as real / 7.0 else 0.0
  }

  // ------------------------------------------------------------ attribute values

  /** The text before the first `"`: where an attribute value written
      between double quotes ends. */
  function UpToQuote(s: string): (r: string)
    ensures IsPrefix(r, s) && '"' !in r
    ensures '"' in s ==> |r| < |s| && s[|r|] == '"'
    ensures '"' !in s ==> r == s
  {
    if s == [] then [] else if s[0] == '"' then [] else [s[0]] + UpToQuote(s[1..])
  }

  /** What an XML reader takes as the value of an attribute written as
      `name="` followed by `text`: everything up to the next `"`, with the
      entity references replaced. */
  function AttrValue(text: string): string
  {
    XmlUnescape(UpToQuote(text))
  }

  /** `XmlEscape` passes `"` through, so the value ends where the first `"`
      of the original text was. */
  lemma {:induction false} UpToQuoteEscape(s: string)
    ensures UpToQuote(XmlEscape(s)) == XmlEscape(UpToQuote(s))
  {
    if s != [] {
      var e := EscapeChar(s[0]);
      var rest := XmlEscape(s[1..]);
      assert XmlEscape(s) == e + rest;
      if s[0] == '"' {
        assert (e + rest)[0] == '"';
      } else {
        UpToQuoteEscape(s[1..]);
        assert '"' !in e;
        UpToQuoteAppend(e, rest);
        assert UpToQuote(s) == [s[0]] + UpToQuote(s[1..]);
      }
    }
  }

  lemma {:induction false} UpToQuoteAppend(e: string, rest: string)
    requires '"' !in e
    ensures UpToQuote(e + rest) == e + UpToQuote(rest)
  {
    if e != [] {
      assert (e + rest)[1..] == e[1..] + rest;
      UpToQuoteAppend(e[1..], rest);
    } else {
      assert e + rest == rest;
    }
  }

  /** Text written with `XmlEscapeAttr` between double quotes reads back as
      itself. */
  lemma AttrValueEscapeAttr(s: string)
    ensures AttrValue(XmlEscapeAttr(s)) == s
  {
    UnescapeEscapeAttr(s);
  }

  /** Text holding a `"` written with `XmlEscape` between double quotes reads
      back cut short at that quote. */
  lemma AttrValueEscapeCut(s: string)
    requires '"' in s
    ensures AttrValue(XmlEscape(s)) == UpToQuote(s) != s
  {
    UpToQuoteEscape(s);
    UnescapeEscape(UpToQuote(s));
  }

  // ------------------------------------------------------------ the sheet

  /** One result line as `add_row` stores it: `(url, fname, fname_len, ext,
      size_mb, status)`. */
  datatype Row = Row(url: string, fname: string, fnameLen: int, ext: string,
                     sizeMb: Option<real>, status: string)

  /** A pending hyperlink: the cell it is anchored to and the URL. */
  datatype Link = Link(cellRef: string, url: string)

  /** The content of a `<c>` element. Text is held as written into the part,
      that is, already escaped. */
  datatype CellValue =
    | InlineText(text: string)                  // t="inlineStr", <is><t>text</t></is>
    | FormulaText(formula: string, cached: string)  // t="str", <f>formula</f><v>cached</v>
    | NumberCell(n: int)                        // <v>n</v>
    | RealCell(x: real)                         // <v>x</v>
    | EmptyCell                                 // no content

  /** A `<c>` element: its reference, its style index (`s=`) and content.
      Styles: 0 normal, 1 bold header, 2 hyperlink, 3 number `0.00`. */
  datatype Cell = Cell(ref: string, style: Option<nat>, value: CellValue)

  datatype SheetRow = SheetRow(index: nat, cells: seq<Cell>)

  datatype Column = Column(min: nat, max: nat, width: real)

  datatype HyperlinkRef = HyperlinkRef(ref: string, rid: string)

  /** The worksheet part: `<dimension>`, `<cols>`, `<sheetData>`,
      `<autoFilter>` and `<hyperlinks>` (absent when empty). */
  datatype Worksheet = Worksheet(dimension: string, cols: seq<Column>, rows: seq<SheetRow>,
                                 autoFilter: string, hyperlinks: seq<HyperlinkRef>)

  /** A `<Relationship>` of the worksheet's relationship part; the type is
      always the external hyperlink type. */
  datatype Relationship = Relationship(id: string, target: string)

  /** What `save` writes: the part names in order, the worksheet and, when
      there are hyperlinks, the worksheet's relationships. */
  datatype Package = Package(parts: seq<string>, sheet: Worksheet,
                             sheetRels: Option<seq<Relationship>>)

  /** The reference of the cell in column `col` of row `r`, such as `A12`. */
  function CellRef(col: char, r: nat): (ref: string)
    ensures |ref| >= 2 && ref[0] == col && ref[1..] == Decimal(r)
  {
    [col] + Decimal(r)
  }

  lemma CellRefInjective(c1: char, r1: nat, c2: char, r2: nat)
    ensures CellRef(c1, r1) == CellRef(c2, r2) ==> c1 == c2 && r1 == r2
  {
    if CellRef(c1, r1) == CellRef(c2, r2) {
      DecimalInjective(r1, r2);
    }
  }

  /** The relationship id of the `i`-th hyperlink, counted from 1. */
  function Rid(i: nat): (id: string)
    ensures |id| > 5 && id[..5] == "rIdHL" && id[5..] == Decimal(i)
  {
    "rIdHL" + Decimal(i)
  }

  lemma RidInjective(i: nat, j: nat)
    ensures Rid(i) == Rid(j) ==> i == j
  {
    if Rid(i) == Rid(j) {
      DecimalInjective(i, j);
    }
  }

  const Columns: string := "ABCDEF"

  const Headers: seq<string> := ["Dosya URL'si", "Dosya ad\U{131}", "Uzunluk",
                                 "Uzant\U{131}", "Boyut (MB)", "Durum"]

  /** Widths in pixels of columns A to F. */
  const ColumnPixels: seq<int> := [900, 225, 75, 75, 100, 75]

  function SheetColumns(): (cols: seq<Column>)
    ensures |cols| == 6
    ensures forall i :: 0 <= i < 6 ==> cols[i].min == cols[i].max == i + 1
  {
    seq(6, i requires 0 <= i < 6 => Column(i + 1, i + 1, PixelsToColWidth(ColumnPixels[i])))
  }

  /** Row 1: the six headers, bold, as inline strings. */
  function HeaderRow(): (row: SheetRow)
    ensures row.index == 1 && |row.cells| == 6
    ensures forall i :: 0 <= i < 6 ==> row.cells[i].ref == CellRef(Columns[i], 1)
  {
    SheetRow(1, seq(6, i requires 0 <= i < 6 =>
      Cell(CellRef(Columns[i], 1), Some(1), InlineText(XmlEscape(Headers[i])))))
  }

  /** A URL too long for a `HYPERLINK` formula (Excel limits its text
      argument to 255 characters) that still needs a link. */
  predicate LongUrl(raw: string) { |raw| > 255 }

  /** Column A of a data row: a `HYPERLINK` formula with the URL as its cached
      value when the sanitised URL is short enough, otherwise the URL as
      inline text (and a hyperlink record, see `RowLinks`). */
  function UrlCell(raw: string, idx: nat): Cell
  {
    var display := XmlEscape(raw);
    if raw != [] && !LongUrl(raw) then
      Cell(CellRef('A', idx), Some(2),
           FormulaText(XmlEscape("HYPERLINK(\"" + ExcelQuote(Some(raw)) + "\")"), display))
    else
      Cell(CellRef('A', idx), Some(2), InlineText(display))
  }

  /** Row `idx` of the sheet for one stored row. */
  function DataRow(row: Row, idx: nat): SheetRow
  {
    SheetRow(idx, [
      UrlCell(Sanitized(row.url), idx),
      Cell(CellRef('B', idx), None, InlineText(XmlEscape(Sanitized(row.fname)))),
      Cell(CellRef('C', idx), Some(0), NumberCell(row.fnameLen)),
      Cell(CellRef('D', idx), None, InlineText(XmlEscape(Sanitized(row.ext)))),
      Cell(CellRef('E', idx), Some(3), if row.sizeMb.None? then EmptyCell else RealCell(row.sizeMb.value)),
      Cell(CellRef('F', idx), None, InlineText(XmlEscape(Sanitized(row.status))))
    ])
  }

  /** Rows `start`, `start + 1`, ... of the sheet for `rows`. */
  function DataRows(rows: seq<Row>, start: nat): (r: seq<SheetRow>)
    ensures |r| == |rows|
    ensures forall k :: 0 <= k < |rows| ==> r[k] == DataRow(rows[k], start + k)
  {
    seq(|rows|, k requires 0 <= k < |rows| => DataRow(rows[k], start + k))
  }

  /** The hyperlink record row `idx` adds: one for a long URL, none otherwise. */
  function RowLinks(row: Row, idx: nat): seq<Link>
  {
    var raw := Sanitized(row.url);
    if raw != [] && LongUrl(raw) then [Link(CellRef('A', idx), raw)] else []
  }

  /** The hyperlink records that laying out `rows` from row `start` adds, in
      row order. */
  function LinksFrom(rows: seq<Row>, start: nat): seq<Link>
  {
    if rows == [] then []
    else LinksFrom(rows[..|rows| - 1], start) + RowLinks(rows[|rows| - 1], start + |rows| - 1)
  }

  /** The row numbers that get a hyperlink record, in order. */
  function LinkedRows(rows: seq<Row>, start: nat): seq<nat>
  {
    if rows == [] then []
    else
      var last := if LongUrl(Sanitized(rows[|rows| - 1].url)) then [start + |rows| - 1] else [];
      LinkedRows(rows[..|rows| - 1], start) + last
  }

  /** `<hyperlinks>`: the `i`-th record gets relationship id `rIdHL<i>`. */
  function HyperlinkRefs(links: seq<Link>): (r: seq<HyperlinkRef>)
    ensures |r| == |links|
  {
    seq(|links|, i requires 0 <= i < |links| => HyperlinkRef(links[i].cellRef, Rid(i + 1)))
  }

  /** `_sheet_rels_xml` with the target escaped for an attribute, so that a
      `"` in the URL survives (see `RelationshipsAsWritten`). */
  function Relationships(links: seq<Link>): (r: seq<Relationship>)
    ensures |r| == |links|
  {
    seq(|links|, i requires 0 <= i < |links| =>
      Relationship(Rid(i + 1), XmlEscapeAttr(Sanitized(links[i].url))))
  }

  /** `_sheet_rels_xml` as written: the target goes through `xml_escape`,
      which leaves `"` as it is. */
  function RelationshipsAsWritten(links: seq<Link>): (r: seq<Relationship>)
    ensures |r| == |links|
  {
    seq(|links|, i requires 0 <= i < |links| =>
      Relationship(Rid(i + 1), XmlEscape(Sanitized(links[i].url))))
  }

  /** Laying out one more row adds its sheet row and its hyperlink records. */
  lemma LayoutStep(rows: seq<Row>, i: nat, start: nat)
    requires i < |rows|
    ensures DataRows(rows[..i + 1], start) == DataRows(rows[..i], start) + [DataRow(rows[i], start + i)]
    ensures LinksFrom(rows[..i + 1], start) == LinksFrom(rows[..i], start) + RowLinks(rows[i], start + i)
  {
    DataRowsStep(rows, i, start);
    assert rows[..i + 1][..i] == rows[..i];
  }

  lemma DataRowsStep(rows: seq<Row>, i: nat, start: nat)
    requires i < |rows|
    ensures DataRows(rows[..i + 1], start) == DataRows(rows[..i], start) + [DataRow(rows[i], start + i)]
  {
    var a, b := DataRows(rows[..i + 1], start), DataRows(rows[..i], start);
    assert forall k :: 0 <= k < i ==> rows[..i + 1][k] == rows[..i][k];
    AppendOne(a, b, DataRow(rows[i], start + i));
  }

  /** The worksheet for `rows` with hyperlink records `links`. */
  function SheetOf(rows: seq<Row>, links: seq<Link>): Worksheet
  {
    var dim := "A1:F" + Decimal(|rows| + 1);
    Worksheet(dim, SheetColumns(), [HeaderRow()] + DataRows(rows, 2), dim, HyperlinkRefs(links))
  }

  const BaseParts: seq<string> := [
    "[Content_Types].xml", "_rels/.rels", "docProps/app.xml", "docProps/core.xml",
    "xl/workbook.xml", "xl/_rels/workbook.xml.rels", "xl/styles.xml", "xl/worksheets/sheet1.xml"]

  const SheetRelsPart: string := "xl/worksheets/_rels/sheet1.xml.rels"

  // ------------------------------------------------------------ sheet properties

  /** The cells of row `idx` sit in columns A to F of that row. */
  lemma DataRowRefs(row: Row, idx: nat)
    ensures var r := DataRow(row, idx);
      r.index == idx && |r.cells| == 6 &&
      forall c :: 0 <= c < 6 ==> r.cells[c].ref == CellRef(Columns[c], idx)
  {
    var r := DataRow(row, idx);
    assert r.cells[0].ref == CellRef('A', idx);
  }

  /** Every row number matches its position, every cell its column and row,
      and the dimension and the filter range both end at the last row. */
  lemma SheetShape(rows: seq<Row>, links: seq<Link>)
    ensures var w := SheetOf(rows, links);
      w.dimension == w.autoFilter == "A1:F" + Decimal(|rows| + 1) &&
      |w.rows| == |rows| + 1 &&
      forall k :: 0 <= k < |w.rows| ==>
        w.rows[k].index == k + 1 && |w.rows[k].cells| == 6 &&
        forall c :: 0 <= c < 6 ==> w.rows[k].cells[c].ref == CellRef(Columns[c], k + 1)
  {
    var w := SheetOf(rows, links);
    forall k | 0 <= k < |w.rows|
      ensures w.rows[k].index == k + 1 && |w.rows[k].cells| == 6
      ensures forall c :: 0 <= c < 6 ==> w.rows[k].cells[c].ref == CellRef(Columns[c], k + 1)
    {
      if k > 0 {
        assert w.rows[k] == DataRow(rows[k - 1], k + 1);
        DataRowRefs(rows[k - 1], k + 1);
      }
    }
  }

  /** A non-empty URL is clickable in exactly one way: by a `HYPERLINK`
      formula or by a hyperlink record; an empty one in neither. */
  lemma UrlLinkedOnce(row: Row, idx: nat)
    ensures var formula := DataRow(row, idx).cells[0].value.FormulaText?;
      var linked := RowLinks(row, idx) != [];
      ((formula || linked) <==> Sanitized(row.url) != []) &&
      !(formula && linked)
  {
  }

  /** The target of a formula `HYPERLINK("...")`, with `""` read as `"`. */
  function FormulaTarget(f: string): Option<string>
  {
    if |f| >= 13 && StartsWith(f, "HYPERLINK(\"") && EndsWith(f, "\")") then
      Some(CollapseQuotes(f[11..|f| - 2]))
    else None
  }

  /** The formula built for a URL links to that URL. */
  lemma FormulaTargetOf(raw: string)
    ensures FormulaTarget("HYPERLINK(\"" + ExcelQuote(Some(raw)) + "\")") == Some(raw)
  {
    var q := ExcelQuote(Some(raw));
    var f := "HYPERLINK(\"" + q + "\")";
    assert f[11..|f| - 2] == q;
    assert f[..11] == "HYPERLINK(\"";
    assert f[|f| - 2..] == "\")";
    CollapseDoubleQuotes(raw);
  }

  /** Reading column A back: the shown text is the sanitised URL and a
      formula links to it. */
  lemma ReadBackUrl(raw: string, idx: nat)
    ensures var a := UrlCell(raw, idx).value;
      (a.InlineText? ==> XmlUnescape(a.text) == raw) &&
      (a.FormulaText? ==> XmlUnescape(a.cached) == raw &&
                          FormulaTarget(XmlUnescape(a.formula)) == Some(raw))
  {
    UnescapeEscape(raw);
    if raw != [] && !LongUrl(raw) {
      UnescapeEscape("HYPERLINK(\"" + ExcelQuote(Some(raw)) + "\")");
      FormulaTargetOf(raw);
    }
  }

  /** Reading a data row back: the texts unescape to the sanitised fields,
      the number is the length and the size cell is empty exactly when the
      size is unknown. */
  lemma ReadBackRow(row: Row, idx: nat)
    ensures var cells := DataRow(row, idx).cells;
      cells[0] == UrlCell(Sanitized(row.url), idx) &&
      XmlUnescape(cells[1].value.text) == Sanitized(row.fname) &&
      cells[2].value == NumberCell(row.fnameLen) &&
      XmlUnescape(cells[3].value.text) == Sanitized(row.ext) &&
      (cells[4].value.EmptyCell? <==> row.sizeMb.None?) &&
      (row.sizeMb.Some? ==> cells[4].value == RealCell(row.sizeMb.value)) &&
      XmlUnescape(cells[5].value.text) == Sanitized(row.status)
  {
    var cells := DataRow(row, idx).cells;
    assert cells[1].value == InlineText(XmlEscape(Sanitized(row.fname)));
    assert cells[3].value == InlineText(XmlEscape(Sanitized(row.ext)));
    assert cells[5].value == InlineText(XmlEscape(Sanitized(row.status)));
    UnescapeEscape(Sanitized(row.fname));
    UnescapeEscape(Sanitized(row.ext));
    UnescapeEscape(Sanitized(row.status));
  }

  /** The rows that get a hyperlink record lie in the layout, in increasing
      order, and are exactly the rows with a long URL. */
  lemma {:induction false} LinkedRowsSpec(rows: seq<Row>, start: nat)
    ensures var R := LinkedRows(rows, start);
      (forall i :: 0 <= i < |R| ==> start <= R[i] < start + |rows|) &&
      (forall i, j :: 0 <= i < j < |R| ==> R[i] < R[j]) &&
      (forall k :: 0 <= k < |rows| ==> (start + k in R <==> LongUrl(Sanitized(rows[k].url))))
  {
    if rows != [] {
      var n := |rows| - 1;
      var init := rows[..n];
      LinkedRowsSpec(init, start);
      var R := LinkedRows(rows, start);
      var R0 := LinkedRows(init, start);
      var last: seq<nat> := if LongUrl(Sanitized(rows[n].url)) then [start + n] else [];
      assert R == R0 + last;
      assert forall i :: 0 <= i < |R0| ==> R[i] == R0[i] < start + n;
      assert forall i :: |R0| <= i < |R| ==> R[i] == start + n;
      forall k | 0 <= k < |rows|
        ensures start + k in R <==> LongUrl(Sanitized(rows[k].url))
      {
        if k < n {
          assert rows[k] == init[k];
          assert start + k in R <==> start + k in R0;
        } else {
          assert start + k !in R0;
        }
      }
    }
  }

  /** Link `l` is the record for row number `r` of a layout of `rows` from
      row `start`: a long URL at column A of that row. */
  predicate LinkOf(rows: seq<Row>, start: nat, r: nat, l: Link)
  {
    start <= r < start + |rows| &&
    l == Link(CellRef('A', r), Sanitized(rows[r - start].url)) && LongUrl(l.url)
  }

  /** The `i`-th hyperlink record is that of the `i`-th linked row. */
  lemma {:induction false} LinksFromRows(rows: seq<Row>, start: nat)
    ensures var L := LinksFrom(rows, start); var R := LinkedRows(rows, start);
      |L| == |R| && forall i :: 0 <= i < |L| ==> LinkOf(rows, start, R[i], L[i])
  {
    if rows != [] {
      var init := rows[..|rows| - 1];
      var last := rows[|rows| - 1];
      LinksFromRows(init, start);
      var L, R := LinksFrom(rows, start), LinkedRows(rows, start);
      var L0, R0 := LinksFrom(init, start), LinkedRows(init, start);
      var n := start + |rows| - 1;
      if LongUrl(Sanitized(last.url)) {
        assert L == L0 + [Link(CellRef('A', n), Sanitized(last.url))];
        assert R == R0 + [n];
      } else {
        assert L == L0 && R == R0;
      }
      forall i | 0 <= i < |L|
        ensures LinkOf(rows, start, R[i], L[i])
      {
        if i < |L0| {
          assert L[i] == L0[i] && R[i] == R0[i];
          LinkOfInit(rows, start, R0[i], L0[i]);
        } else {
          assert R[i] == n && rows[n - start] == last;
        }
      }
    }
  }

  /** A record for a row of all but the last row is one for that row of all
      the rows. */
  lemma LinkOfInit(rows: seq<Row>, start: nat, r: nat, l: Link)
    requires rows != [] && LinkOf(rows[..|rows| - 1], start, r, l)
    ensures LinkOf(rows, start, r, l)
  {
    assert rows[..|rows| - 1][r - start] == rows[r - start];
  }

  /** No cell gets two hyperlink records from one layout. */
  lemma LinkRefsDistinct(rows: seq<Row>, start: nat, i: nat, j: nat)
    requires i < j < |LinksFrom(rows, start)|
    ensures LinksFrom(rows, start)[i].cellRef != LinksFrom(rows, start)[j].cellRef
  {
    LinksFromRows(rows, start);
    LinkedRowsSpec(rows, start);
    var R := LinkedRows(rows, start);
    CellRefInjective('A', R[i], 'A', R[j]);
  }

  /** The `i`-th `<hyperlink>` and the `i`-th `<Relationship>` share an id,
      and no two relationships share one. */
  lemma RidsAgree(links: seq<Link>, i: nat, j: nat)
    requires i < |links| && j < |links|
    ensures HyperlinkRefs(links)[i].rid == Relationships(links)[i].id
    ensures RelationshipsAsWritten(links)[i].id == Relationships(links)[i].id
    ensures HyperlinkRefs(links)[i].ref == links[i].cellRef
    ensures i != j ==> Relationships(links)[i].id != Relationships(links)[j].id
  {
    RidInjective(i + 1, j + 1);
  }

  /** Following a hyperlink record of a layout leads to the URL the cell
      shows. */
  lemma RelationshipTargets(rows: seq<Row>, start: nat, i: nat)
    requires i < |LinksFrom(rows, start)|
    ensures AttrValue(Relationships(LinksFrom(rows, start))[i].target) == LinksFrom(rows, start)[i].url
  {
    LinksFromRows(rows, start);
    var L := LinksFrom(rows, start);
    var R := LinkedRows(rows, start);
    SanitizedIdempotent(rows[R[i] - start].url);
    AttrValueEscapeAttr(L[i].url);
  }

  /** As written, a long URL holding a `"` ends its `Target` attribute early:
      the target read back is not the URL. */
  lemma RelationshipsAsWrittenCut(row: Row)
    requires LongUrl(Sanitized(row.url)) && '"' in Sanitized(row.url)
    ensures var L := LinksFrom([row], 2);
      |L| == 1 && AttrValue(RelationshipsAsWritten(L)[0].target) != L[0].url
  {
    var raw := Sanitized(row.url);
    assert [row][..0] == [] && [row][0] == row;
    var L := LinksFrom([row], 2);
    assert L == LinksFrom([], 2) + RowLinks(row, 2);
    assert L == [Link(CellRef('A', 2), raw)];
    SanitizedIdempotent(row.url);
    AttrValueEscapeCut(raw);
  }

  /** One pass of the row loop of `_sheet_xml`: the sheet row for `row` at
      row `idx`, and the hyperlink record it adds when its URL is too long
      for a formula. */
  method LayOutRow(row: Row, idx: nat) returns (sheetRow: SheetRow, links: seq<Link>)
    ensures sheetRow == DataRow(row, idx) && links == RowLinks(row, idx)
  {
    var raw := XmlSanitize(Some(row.url));
    sheetRow := DataRow(row, idx);
    links := [];
    if raw != [] && |raw| > 255 {
      links := [Link(CellRef('A', idx), raw)];
    }
  }

  /** One pass of the row loop of `_sheet_xml`, in the loop's own terms:
      the rows laid out so far gain one sheet row, the records held so far
      gain that row's records. */
  lemma SheetStep(rows: seq<Row>, i: nat, held: seq<Link>)
    requires i < |rows|
    ensures [HeaderRow()] + DataRows(rows[..i + 1], 2) ==
      ([HeaderRow()] + DataRows(rows[..i], 2)) + [DataRow(rows[i], i + 2)]
    ensures held + LinksFrom(rows[..i + 1], 2) == (held + LinksFrom(rows[..i], 2)) + RowLinks(rows[i], i + 2)
  {
    LayoutStep(rows, i, 2);
    AppendAssoc([HeaderRow()], DataRows(rows[..i], 2), [DataRow(rows[i], i + 2)]);
    AppendAssoc(held, LinksFrom(rows[..i], 2), RowLinks(rows[i], i + 2));
  }

  /** The worksheet the row loop assembles is `SheetOf`. */
  lemma SheetOfParts(rows: seq<Row>, links: seq<Link>, out: seq<SheetRow>)
    requires out == [HeaderRow()] + DataRows(rows[..|rows|], 2)
    ensures SheetOf(rows, links) == Worksheet("A1:F" + Decimal(|rows| + 1), SheetColumns(), out,
                                              "A1:F" + Decimal(|rows| + 1), HyperlinkRefs(links))
  {
    assert rows[..|rows|] == rows;
  }

  /** `XlsxBuilder`: collects result rows and writes them as a workbook. */
  class XlsxBuilder {
    var rows: seq<Row>
    var hyperlinks: seq<Link>

    constructor()
      ensures rows == [] && hyperlinks == []
    {
      rows := [];
      hyperlinks := [];
    }

    /** `add_row`: missing texts become empty, a missing length becomes 0. */
    method AddRow(url: Option<string>, fname: Option<string>, fnameLen: Option<int>,
                  ext: Option<string>, sizeMb: Option<real>, status: Option<string>)
      modifies this
      ensures rows == old(rows) + [Row(OrEmpty(url), OrEmpty(fname), fnameLen.GetOr(0),
                                       OrEmpty(ext), sizeMb, OrEmpty(status))]
      ensures hyperlinks == old(hyperlinks)
    {
      rows := rows + [Row(url.GetOr(""), fname.GetOr(""), fnameLen.GetOr(0),
                          ext.GetOr(""), sizeMb, status.GetOr(""))];
    }

    /** `_sheet_xml`: lays out the header and one row per stored row, and
        appends a hyperlink record for every long URL to those already
        held. */
    method SheetXml() returns (w: Worksheet)
      modifies this
      ensures rows == old(rows)
      ensures hyperlinks == old(hyperlinks) + LinksFrom(rows, 2)
      ensures w == SheetOf(rows, hyperlinks)
    {
      var out := [HeaderRow()];
      var rs := rows;
      ghost var held := hyperlinks;
      for i := 0 to |rs|
        invariant rows == rs
        invariant out == [HeaderRow()] + DataRows(rs[..i], 2)
        invariant hyperlinks == held + LinksFrom(rs[..i], 2)
      {
        var sheetRow, links := LayOutRow(rs[i], i + 2);
        SheetStep(rs, i, held);
        out := out + [sheetRow];
        hyperlinks := hyperlinks + links;
      }
      assert rs[..|rs|] == rs;
      var dim := "A1:F" + Decimal(|rs| + 1);
      w := Worksheet(dim, SheetColumns(), out, dim, HyperlinkRefs(hyperlinks));
      SheetOfParts(rs, hyperlinks, out);
    }

    /** `_sheet_rels_xml` as written, with the text escape on the targets. */
    function SheetRels(): seq<Relationship>
      reads this
    {
      RelationshipsAsWritten(hyperlinks)
    }

    /** `save`: the eight fixed parts in order, then the worksheet's
        relationships when the sheet holds hyperlinks. The worksheet is laid
        out first, so its records count. */
    method Save() returns (pkg: Package)
      modifies this
      ensures rows == old(rows)
      ensures hyperlinks == old(hyperlinks) + LinksFrom(rows, 2)
      ensures pkg.sheet == SheetOf(rows, hyperlinks)
      ensures pkg.parts == BaseParts + (if hyperlinks != [] then [SheetRelsPart] else [])
      ensures pkg.sheetRels == (if hyperlinks != [] then Some(RelationshipsAsWritten(hyperlinks)) else None)
    {
      var sheet := SheetXml();
      if hyperlinks != [] {
        pkg := Package(BaseParts + [SheetRelsPart], sheet, Some(SheetRels()));
      } else {
        pkg := Package(BaseParts, sheet, None);
      }
    }
  }
}
