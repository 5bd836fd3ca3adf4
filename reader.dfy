/** Input extraction: which files the tool accepts, the first worksheet of an
    `.xlsx` workbook read down the column under a given header, and the media
    and content links of a WordPress export (WXR). The ZIP archive and the
    XML trees are given already parsed, as the datatypes below. */
module Reader {
  import opened Wrappers
  import opened Text

  // ------------------------------------------------------------ file kinds

  /** `_ext_of`: the extension of the lower-cased path, with its dot. */
  function ExtOf(path: Option<string>): string
  {
    SplitExt(Lower(path.GetOr(""))).1
  }

  predicate IsExcel(path: Option<string>) { ExtOf(path) == ".xlsx" }

  predicate IsXml(path: Option<string>) { ExtOf(path) == ".xml" }

  /** The tests do not depend on letter case. */
  lemma ExtCaseInsensitive(s: string)
    ensures ExtOf(Some(Lower(s))) == ExtOf(Some(s))
    ensures IsExcel(Some(Lower(s))) == IsExcel(Some(s))
    ensures IsXml(Some(Lower(s))) == IsXml(Some(s))
  {
    LowerIdempotent(s);
  }

  lemma LowerName(dir: string, stem: string, ext: string)
    ensures Lower(dir + stem + "." + ext) == Lower(dir) + Lower(stem) + "." + Lower(ext)
  {
    LowerAppend(dir + stem + ".", ext);
    LowerAppend(dir + stem, ".");
    LowerAppend(dir, stem);
  }

  /** A file `stem.ext` in any directory, with a stem that is not only dots,
      has the lower-cased `ext` as its extension. */
  lemma ExtOfName(dir: string, stem: string, ext: string)
    requires dir == [] || dir[|dir| - 1] == '/'
    requires '/' !in stem && '/' !in ext && '.' !in ext
    requires !AllDots(stem)
    ensures ExtOf(Some(dir + stem + "." + ext)) == "." + Lower(ext)
  {
    var ld, ls, le := Lower(dir), Lower(stem), Lower(ext);
    LowerName(dir, stem, ext);
    assert ld == [] || ld[|ld| - 1] == '/';
    LowerKeeps(stem, '/');
    LowerKeeps(ext, '/');
    LowerKeeps(ext, '.');
    LowerAllDots(stem);
    SplitExtName(ld, ls, le);
  }

  /** A file is never both a workbook and an XML export. */
  lemma NeverBoth(path: Option<string>)
    ensures !(IsExcel(path) && IsXml(path))
  {
  }

  /** A file whose extension is `xlsx` in any letter case is a workbook. */
  lemma ExcelName(dir: string, stem: string, ext: string)
    requires dir == [] || dir[|dir| - 1] == '/'
    requires '/' !in stem && !AllDots(stem)
    requires Lower(ext) == "xlsx"
    ensures IsExcel(Some(dir + stem + "." + ext))
  {
    assert "." + "xlsx" == ".xlsx" && '/' !in "xlsx" && '.' !in "xlsx";
    LowerKeeps(ext, '/');
    LowerKeeps(ext, '.');
    ExtOfName(dir, stem, ext);
  }

  /** A file whose extension is `xml` in any letter case is an export. */
  lemma XmlName(dir: string, stem: string, ext: string)
    requires dir == [] || dir[|dir| - 1] == '/'
    requires '/' !in stem && !AllDots(stem)
    requires Lower(ext) == "xml"
    ensures IsXml(Some(dir + stem + "." + ext))
  {
    assert "." + "xml" == ".xml" && '/' !in "xml" && '.' !in "xml";
    LowerKeeps(ext, '/');
    LowerKeeps(ext, '.');
    ExtOfName(dir, stem, ext);
  }

  // ------------------------------------------------------------ column letters

  /** The column number that `letters_to_index` computes: bijective base 26
      over the capital letters of `s`, every other character skipped. */
  function LettersValue(s: string): nat
  {
    if s == [] then 0
    else if IsUpper(s[|s| - 1]) then 26 * LettersValue(s[..|s| - 1]) + LetterDigit(s[|s| - 1])
    else LettersValue(s[..|s| - 1])
  }

  function LetterDigit(c: char): (d: nat)
    requires IsUpper(c)
    ensures 1 <= d <= 26
  {
    c as int - 'A' as int + 1
  }

  /** `letters_to_index`: one pass over the letters, accumulating. */
  method LettersToIndex(s: string) returns (v: nat)
    ensures v == LettersValue(s)
  {
    v := 0;
    for i := 0 to |s|
      invariant v == LettersValue(s[..i])
    {
      assert s[..i + 1][..i] == s[..i];
      if 'A' <= s[i] <= 'Z' {
        v := v * 26 + (s[i] as int - 'A' as int + 1);
      }
    }
    assert s[..|s|] == s;
  }

  /** The column letters of column `n` (empty for 0). */
  function IndexToLetters(n: nat): (s: string)
    ensures forall i :: 0 <= i < |s| ==> IsUpper(s[i])
  {
    if n == 0 then []
    else IndexToLetters((n - 1) / 26) + [('A' as int + (n - 1) % 26) as char]
  }

  /** Every column number has letters that read back as that number. */
  lemma {:induction false} LettersOfIndex(n: nat)
    ensures LettersValue(IndexToLetters(n)) == n
  {
    if n > 0 {
      var s := IndexToLetters(n);
      assert s[..|s| - 1] == IndexToLetters((n - 1) / 26);
      LettersOfIndex((n - 1) / 26);
    }
  }

  /** Letters without anything else are the letters of their number, so
      the numbering is one-to-one on them. */
  lemma {:induction false} IndexOfLetters(s: string)
    requires forall i :: 0 <= i < |s| ==> IsUpper(s[i])
    ensures IndexToLetters(LettersValue(s)) == s
  {
    if s != [] {
      var init, c := s[..|s| - 1], s[|s| - 1];
      var v, q, d := LettersValue(s), LettersValue(init), LetterDigit(c);
      assert v == 26 * q + d;
      Div26(v - 1, q, d - 1);
      IndexOfLetters(init);
      assert (('A' as int + (d - 1)) as char) == c;
      assert IndexToLetters(v) == IndexToLetters(q) + [c];
      assert s == init + [c];
    }
  }

  /** Dividing `26 * q + r` by 26, for `r` below 26. */
  lemma Div26(n: nat, q: nat, r: nat)
    requires r < 26 && n == 26 * q + r
    ensures n / 26 == q && n % 26 == r
  {
  }

  lemma LettersExamples()
    ensures LettersValue("") == 0 && LettersValue("A") == 1 && LettersValue("Z") == 26
    ensures LettersValue("AA") == 27 && LettersValue("AZ") == 52 && LettersValue("BA") == 53
  {
    assert "AA"[..1] == "A" && "AZ"[..1] == "A" && "BA"[..1] == "B";
  }

  /** `ch.isalpha()` on ASCII. */
  predicate IsAlpha(c: char) { IsUpper(c) || ('a' <= c <= 'z') }

  /** `"".join(ch for ch in r if ch.isalpha())` */
  function AlphaOnly(s: string): (r: string)
    ensures |r| <= |s|
  {
    if s == [] then []
    else AlphaOnly(s[..|s| - 1]) + (if IsAlpha(s[|s| - 1]) then [s[|s| - 1]] else [])
  }

  /** Keeping only the letters of a reference first does not change its
      column number, which is why the letter test's treatment of characters
      outside ASCII does not matter. */
  lemma {:induction false} LettersIgnoreFilter(s: string)
    ensures LettersValue(AlphaOnly(s)) == LettersValue(s)
  {
    if s != [] {
      var init, c := s[..|s| - 1], s[|s| - 1];
      LettersIgnoreFilter(init);
      var a := AlphaOnly(s);
      if IsAlpha(c) {
        assert a == AlphaOnly(init) + [c];
        assert a[..|a| - 1] == AlphaOnly(init) && a[|a| - 1] == c;
      } else {
        assert a == AlphaOnly(init);
      }
    }
  }

  /** A cell reference `B12` lies in column 2. */
  lemma {:induction false} ColumnOfRef(col: char, r: nat)
    requires IsUpper(col)
    ensures LettersValue(AlphaOnly([col] + Decimal(r))) == LetterDigit(col)
  {
    LettersIgnoreFilter([col] + Decimal(r));
    DigitsIgnored([col], Decimal(r));
    assert [col][..0] == [];
  }

  /** Appending digits leaves the column number as it was. */
  lemma {:induction false} DigitsIgnored(s: string, digits: string)
    requires forall i :: 0 <= i < |digits| ==> IsDigit(digits[i])
    ensures LettersValue(s + digits) == LettersValue(s)
  {
    if digits != [] {
      var t := s + digits;
      assert t[..|t| - 1] == s + digits[..|digits| - 1];
      DigitsIgnored(s, digits[..|digits| - 1]);
    } else {
      assert s + digits == s;
    }
  }

  // ------------------------------------------------------------ cells

  /** A `<c>` element as parsed: its `r` and `t` attributes, the text of its
      `<v>` child and the text of its `<is><t>` child (`None` when the child
      is missing or has no text). */
  datatype XCell = XCell(r: Option<string>, t: Option<string>, v: Option<string>,
                         inlineText: Option<string>)

  /** The shared string table: each `<si>` is the concatenation of the texts
      of the `<t>` elements under it. */
  function SharedTable(items: seq<seq<Option<string>>>): (table: seq<string>)
    ensures |table| == |items|
  {
    seq(|items|, i requires 0 <= i < |items| => Concat(items[i]))
  }

  function Concat(texts: seq<Option<string>>): string
  {
    if texts == [] then [] else texts[0].GetOr("") + Concat(texts[1..])
  }

  /** `cell_text`, with a missing text read as `""` as every caller does. */
  function CellText(c: XCell, shared: seq<string>): string
  {
    if c.t == Some("s") then
      if c.v.Some? && IsDigits(c.v.value) && DigitsValue(c.v.value) < |shared| then
        shared[DigitsValue(c.v.value)]
      else ""
    else if c.t == Some("inlineStr") then c.inlineText.GetOr("")
    else c.v.GetOr("")
  }

  /** A shared-string cell holding index `i` reads entry `i` of the table,
      or `""` when there is no such entry. */
  lemma SharedCell(r: Option<string>, i: nat, shared: seq<string>, inlineText: Option<string>)
    ensures var c := XCell(r, Some("s"), Some(Decimal(i)), inlineText);
      CellText(c, shared) == if i < |shared| then shared[i] else ""
  {
    DecimalRoundTrip(i);
  }

  /** A shared-string cell whose value is missing or not a plain number
      reads `""`. */
  lemma SharedCellBad(c: XCell, shared: seq<string>)
    requires c.t == Some("s") && (c.v.None? || !IsDigits(c.v.value))
    ensures CellText(c, shared) == ""
  {
  }

  /** The column a cell sits in, reading `default` for a missing `r`. */
  function ColumnOf(c: XCell, default: string): nat
  {
    LettersValue(AlphaOnly(c.r.GetOr(default)))
  }

  // ------------------------------------------------------------ header lookup

  /** Header comparison: both sides stripped and lower-cased. */
  function Key(s: string): string { Lower(Strip(s)) }

  /** The comparison keys of the header row's cells. */
  function HeaderKeys(cells: seq<XCell>, shared: seq<string>): (keys: seq<string>)
    ensures |keys| == |cells|
    ensures forall i :: 0 <= i < |cells| ==> keys[i] == Key(CellText(cells[i], shared))
  {
    seq(|cells|, i requires 0 <= i < |cells| => Key(CellText(cells[i], shared)))
  }

  /** Python's `f"{x}"` for an optional text. */
  function Show(s: Option<string>): string
  {
    if s.None? then "None" else s.value
  }

  function HeaderNotFound(name: Option<string>): string
  {
    "'" + Show(name) + "' ba\U{15F}l\U{131}kl\U{131} s\U{FC}tun bulunamad\U{131}."
  }

  /** The column of the first header cell whose key is the name's key (a
      missing `r` reads as `A1`), or the error naming the header. */
  function HeaderColumn(cells: seq<XCell>, name: Option<string>, shared: seq<string>): Result<nat>
  {
    var k := FirstIndex(HeaderKeys(cells, shared), Key(name.GetOr("")));
    if k < |cells| then Ok(ColumnOf(cells[k], "A1")) else Err(HeaderNotFound(name))
  }

  /** The lookup gives the column of the first header cell whose key is
      the name's key, and fails when no cell has that key. */
  lemma HeaderColumnAt(cells: seq<XCell>, name: Option<string>, shared: seq<string>, k: nat)
    requires k <= |cells| && (k < |cells| ==> Key(CellText(cells[k], shared)) == Key(name.GetOr("")))
    requires forall j :: 0 <= j < k ==> Key(CellText(cells[j], shared)) != Key(name.GetOr(""))
    ensures HeaderColumn(cells, name, shared) ==
      if k < |cells| then Ok(ColumnOf(cells[k], "A1")) else Err(HeaderNotFound(name))
  {
    HeaderIndexAt(cells, name, shared, k);
    HeaderColumnIs(cells, name, shared, k);
  }

  /** The first header cell whose key matches is cell `k`. */
  lemma HeaderIndexAt(cells: seq<XCell>, name: Option<string>, shared: seq<string>, k: nat)
    requires k <= |cells| && (k < |cells| ==> Key(CellText(cells[k], shared)) == Key(name.GetOr("")))
    requires forall j :: 0 <= j < k ==> Key(CellText(cells[j], shared)) != Key(name.GetOr(""))
    ensures FirstIndex(HeaderKeys(cells, shared), Key(name.GetOr(""))) == k
  {
    FirstIndexAt(HeaderKeys(cells, shared), Key(name.GetOr("")), k);
  }

  /** What the lookup returns once the first matching cell is known. */
  lemma HeaderColumnIs(cells: seq<XCell>, name: Option<string>, shared: seq<string>, k: nat)
    requires FirstIndex(HeaderKeys(cells, shared), Key(name.GetOr(""))) == k
    ensures HeaderColumn(cells, name, shared) ==
      if k < |cells| then Ok(ColumnOf(cells[k], "A1")) else Err(HeaderNotFound(name))
  {
  }

  /** `str(cell_text).strip().lower()` for one header cell. */
  method CellKey(c: XCell, shared: seq<string>) returns (k: string)
    ensures k == Key(CellText(c, shared))
  {
    var txt := Strip(CellText(c, shared));
    k := Lower(txt);
  }

  /** The header loop of `read_urls_from_xlsx`: stops at the first matching
      cell of the header row. */
  method FindHeader(cells: seq<XCell>, name: Option<string>, shared: seq<string>)
    returns (r: Result<nat>)
    ensures r == HeaderColumn(cells, name, shared)
  {
    var key := Key(name.GetOr(""));
    ghost var keys := HeaderKeys(cells, shared);
    var i := 0;
    while i < |cells|
      invariant 0 <= i <= FirstIndex(keys, key)
    {
      var c := cells[i];
      var letters := AlphaOnly(c.r.GetOr("A1"));
      var idx := LettersToIndex(letters);
      var cellKey := CellKey(c, shared);
      if cellKey == key {
        FirstIndexHere(keys, key, i);
        HeaderColumnIs(cells, name, shared, i);
        return Ok(idx);
      }
      FirstIndexPast(keys, key, i);
      i := i + 1;
    }
    HeaderColumnIs(cells, name, shared, |cells|);
    return Err(HeaderNotFound(name));
  }

  // ------------------------------------------------------------ column extraction

  /** The columns of a data row's cells; a missing `r` gives column 0. */
  function RowColumns(row: seq<XCell>): (cols: seq<nat>)
    ensures |cols| == |row|
  {
    seq(|row|, j requires 0 <= j < |row| => ColumnOf(row[j], ""))
  }

  /** What a data row contributes: the stripped text of its first cell in
      the header's column, or `""` when it has none there. */
  function RowValue(row: seq<XCell>, col: nat, shared: seq<string>): string
  {
    var k := FirstIndex(RowColumns(row), col);
    if k < |row| then Strip(CellText(row[k], shared)) else ""
  }

  /** A row's value comes from its first cell in the header's column, and
      is `""` when no cell is in that column. */
  lemma RowValueAt(row: seq<XCell>, col: nat, shared: seq<string>, k: nat)
    requires k <= |row| && (k < |row| ==> ColumnOf(row[k], "") == col)
    requires forall j :: 0 <= j < k ==> ColumnOf(row[j], "") != col
    ensures RowValue(row, col, shared) == if k < |row| then Strip(CellText(row[k], shared)) else ""
  {
    var cols := RowColumns(row);
    assert forall j :: 0 <= j < k ==> cols[j] != col;
    FirstIndexAt(cols, col, k);
  }

  /** `[u for u in urls if u]` */
  function NonEmpty(s: seq<string>): (r: seq<string>)
    ensures forall i :: 0 <= i < |r| ==> r[i] != ""
    ensures |r| <= |s|
  {
    if s == [] then []
    else NonEmpty(s[..|s| - 1]) + (if s[|s| - 1] != "" then [s[|s| - 1]] else [])
  }

  /** The filter keeps every non-empty value, in order, and nothing else. */
  lemma {:induction false} NonEmptyKeeps(s: seq<string>)
    ensures IsSubsequence(NonEmpty(s), s)
    ensures forall u :: u in s && u != "" ==> u in NonEmpty(s)
  {
    if s != [] {
      var init := s[..|s| - 1];
      NonEmptyKeeps(init);
      var r := NonEmpty(s);
      assert s[..|s| - 1] == init;
      var last := s[|s| - 1];
      if last == "" {
        assert r == NonEmpty(init);
        SubsequenceDropLast(r, s);
      } else {
        assert r == NonEmpty(init) + [last];
        assert r[..|r| - 1] == NonEmpty(init) && r[|r| - 1] == last;
      }
      forall u | u in s && u != ""
        ensures u in r
      {
        if u != last {
          assert u in init by {
            var j :| 0 <= j < |s| && s[j] == u;
            assert j < |s| - 1 && init[j] == u;
          }
        }
      }
    }
  }

  /** The values of the data rows under column `col`, in row order. */
  function ColumnValues(rows: seq<seq<XCell>>, col: nat, shared: seq<string>): (vs: seq<string>)
    ensures |vs| == |rows|
    ensures forall k :: 0 <= k < |rows| ==> vs[k] == RowValue(rows[k], col, shared)
  {
    seq(|rows|, k requires 0 <= k < |rows| => RowValue(rows[k], col, shared))
  }

  lemma ColumnValuesStep(rows: seq<seq<XCell>>, col: nat, shared: seq<string>, i: nat)
    requires i < |rows|
    ensures ColumnValues(rows[..i + 1], col, shared) ==
      ColumnValues(rows[..i], col, shared) + [RowValue(rows[i], col, shared)]
  {
    var a, b := ColumnValues(rows[..i + 1], col, shared), ColumnValues(rows[..i], col, shared);
    assert forall k :: 0 <= k < i ==> rows[..i + 1][k] == rows[..i][k];
    AppendOne(a, b, RowValue(rows[i], col, shared));
  }

  /** The data-row loop of `read_urls_from_xlsx`, then the filter. */
  method ExtractColumn(rows: seq<seq<XCell>>, col: nat, shared: seq<string>)
    returns (urls: seq<string>)
    ensures urls == NonEmpty(ColumnValues(rows, col, shared))
  {
    var all: seq<string> := [];
    for i := 0 to |rows|
      invariant all == ColumnValues(rows[..i], col, shared)
    {
      var u := CellUnder(rows[i], col, shared);
      ColumnValuesStep(rows, col, shared, i);
      all := all + [u];
    }
    assert rows[..|rows|] == rows;
    urls := NonEmpty(all);
  }

  /** The inner loop: the first cell of the row in the column, stripped. */
  method CellUnder(row: seq<XCell>, col: nat, shared: seq<string>) returns (u: string)
    ensures u == RowValue(row, col, shared)
  {
    ghost var cols := RowColumns(row);
    var j := 0;
    while j < |row|
      invariant 0 <= j <= |row|
      invariant forall m :: 0 <= m < j ==> cols[m] != col
    {
      var letters := AlphaOnly(row[j].r.GetOr(""));
      var idx := LettersToIndex(letters);
      if idx == col {
        FirstIndexAt(cols, col, j);
        return Strip(CellText(row[j], shared));
      }
      j := j + 1;
    }
    FirstIndexAt(cols, col, |row|);
    return "";
  }

  // ------------------------------------------------------------ the workbook

  /** A `<Relationship>` of the workbook's relationship part. */
  datatype Rel = Rel(id: Option<string>, target: Option<string>)

  /** The parts `read_urls_from_xlsx` reads, already parsed:
      - `sheetRid`: `None` when the workbook lists no sheet, otherwise the
        `r:id` of the first one (itself `None` when the attribute is missing);
      - `rels`: the workbook's relationships, in document order;
      - `sheets`: the worksheet parts by name, each with its rows, or `None`
        when the part has no `<sheetData>`;
      - `sharedItems`: the `<t>` texts of each `<si>` of the shared string
        table (empty when there is no table). */
  datatype Workbook = Workbook(sheetRid: Option<Option<string>>, rels: seq<Rel>,
                               sheets: map<string, Option<seq<seq<XCell>>>>,
                               sharedItems: seq<seq<Option<string>>>)

  const NoSheet: string := "\U{C7}al\U{131}\U{15F}ma sayfas\U{131} bulunamad\U{131}."
  const NoSheetRel: string := "Sayfa ili\U{15F}kisi bulunamad\U{131}."

  /** What reading a part that is not in the archive raises. */
  function MissingPart(name: string): string
  {
    "There is no item named '" + name + "' in the archive"
  }

  /** The ids of the relationships, in order. */
  function RelIds(rels: seq<Rel>): (ids: seq<Option<string>>)
    ensures |ids| == |rels|
  {
    seq(|rels|, i requires 0 <= i < |rels| => rels[i].id)
  }

  /** The target of the first relationship whose id is `rid`. */
  function RelTarget(rels: seq<Rel>, rid: Option<string>): Option<string>
  {
    var k := FirstIndex(RelIds(rels), rid);
    if k < |rels| then rels[k].target else None
  }

  /** The worksheet's part name: the target under `xl/`. */
  function SheetPath(target: string): (p: string)
    ensures StartsWith(p, "xl/")
    ensures StartsWith(target, "xl/") ==> p == target
  {
    if StartsWith(target, "xl/") then target else "xl/" + target
  }

  /** What `read_urls_from_xlsx` returns or raises. */
  function ReadXlsx(wb: Workbook, name: Option<string>): Result<seq<string>>
  {
    if wb.sheetRid.None? then Err(NoSheet)
    else
      var target := RelTarget(wb.rels, wb.sheetRid.value);
      if target.None? || target.value == "" then Err(NoSheetRel)
      else
        var path := SheetPath(target.value);
        if path !in wb.sheets then Err(MissingPart(path))
        else if wb.sheets[path].None? || wb.sheets[path].value == [] then Ok([])
        else
          var rows := wb.sheets[path].value;
          var shared := SharedTable(wb.sharedItems);
          match HeaderColumn(rows[0], name, shared)
          case Err(m) => Err(m)
          case Ok(col) => Ok(NonEmpty(ColumnValues(rows[1..], col, shared)))
  }

  /** `read_urls_from_xlsx` on an opened archive. */
  method ReadUrlsFromXlsx(wb: Workbook, name: Option<string>) returns (r: Result<seq<string>>)
    ensures r == ReadXlsx(wb, name)
  {
    if wb.sheetRid.None? {
      return Err(NoSheet);
    }
    var rid := wb.sheetRid.value;
    var target: Option<string> := None;
    var i := 0;
    while i < |wb.rels|
      invariant 0 <= i <= |wb.rels|
      invariant forall j :: 0 <= j < i ==> RelIds(wb.rels)[j] != rid
    {
      if wb.rels[i].id == rid {
        FirstIndexAt(RelIds(wb.rels), rid, i);
        target := wb.rels[i].target;
        break;
      }
      i := i + 1;
    }
    if i == |wb.rels| {
      FirstIndexAt(RelIds(wb.rels), rid, i);
    }
    if target.None? || target.value == "" {
      return Err(NoSheetRel);
    }
    var path := if StartsWith(target.value, "xl/") then target.value else "xl/" + target.value;
    if path !in wb.sheets {
      return Err(MissingPart(path));
    }
    var shared := SharedTable(wb.sharedItems);
    var sheetData := wb.sheets[path];
    if sheetData.None? {
      return Ok([]);
    }
    var rows := sheetData.value;
    if rows == [] {
      return Ok([]);
    }
    var header := FindHeader(rows[0], name, shared);
    if header.Err? {
      return Err(header.message);
    }
    var urls := ExtractColumn(rows[1..], header.value, shared);
    return Ok(urls);
  }

  /** Whatever the workbook, the URLs read are stripped and none is empty. */
  lemma ReadXlsxUrls(wb: Workbook, name: Option<string>)
    requires ReadXlsx(wb, name).Ok?
    ensures var urls := ReadXlsx(wb, name).value;
      forall i :: 0 <= i < |urls| ==> urls[i] != "" && Strip(urls[i]) == urls[i]
  {
    var target := RelTarget(wb.rels, wb.sheetRid.value);
    var path := SheetPath(target.value);
    if wb.sheets[path].Some? && wb.sheets[path].value != [] {
      var rows := wb.sheets[path].value;
      var shared := SharedTable(wb.sharedItems);
      var col := HeaderColumn(rows[0], name, shared).value;
      ColumnValuesStripped(rows[1..], col, shared);
      NonEmptyStripped(ColumnValues(rows[1..], col, shared));
    }
  }

  lemma ColumnValuesStripped(rows: seq<seq<XCell>>, col: nat, shared: seq<string>)
    ensures var vs := ColumnValues(rows, col, shared);
      forall k :: 0 <= k < |vs| ==> Strip(vs[k]) == vs[k]
  {
    var vs := ColumnValues(rows, col, shared);
    forall k | 0 <= k < |vs|
      ensures Strip(vs[k]) == vs[k]
    {
      RowValueStripped(rows[k], col, shared);
    }
  }

  lemma RowValueStripped(row: seq<XCell>, col: nat, shared: seq<string>)
    ensures Strip(RowValue(row, col, shared)) == RowValue(row, col, shared)
  {
    var f := FirstIndex(RowColumns(row), col);
    if f < |row| {
      StripIdempotent(CellText(row[f], shared));
    } else {
      assert RowValue(row, col, shared) == "";
    }
  }

  lemma {:induction false} NonEmptyStripped(s: seq<string>)
    requires forall i :: 0 <= i < |s| ==> Strip(s[i]) == s[i]
    ensures forall i :: 0 <= i < |NonEmpty(s)| ==> Strip(NonEmpty(s)[i]) == NonEmpty(s)[i]
  {
    if s != [] {
      var init := s[..|s| - 1];
      assert forall i :: 0 <= i < |init| ==> init[i] == s[i];
      NonEmptyStripped(init);
    }
  }

  // ------------------------------------------------------------ WordPress export

  /** A child element of an `<item>`: its tag as the parser reports it (with
      the namespace in braces) and its text. */
  datatype XChild = XChild(tag: string, text: Option<string>)

  /** An element as the parse reports its end, with its children. */
  datatype XElem = XElem(tag: string, children: seq<XChild>)

  const NotXml: string := "XML modu yaln\U{131}zca .xml dosyas\U{131} kabul eder."

  predicate IsWebUrl(s: string)
  {
    StartsWith(Lower(s), "http://") || StartsWith(Lower(s), "https://")
  }

  /** `add`: the stripped value when it starts with `http://` or `https://`
      in any letter case; nothing for a missing or empty value. */
  function Accept(u: Option<string>): seq<string>
  {
    if u.None? || u.value == "" then []
    else if IsWebUrl(Strip(u.value)) then [Strip(u.value)]
    else []
  }

  /** `add` keeps exactly the values that are web URLs once stripped, and
      keeps them stripped. */
  lemma AcceptSpec(u: Option<string>)
    ensures |Accept(u)| <= 1
    ensures Accept(u) != [] <==> u.Some? && IsWebUrl(Strip(u.value))
    ensures Accept(u) != [] ==> Accept(u)[0] == Strip(u.value)
  {
    if u.Some? && u.value == "" {
      assert Strip(u.value) == "";
    }
  }

  /** `add` on a value that is present. */
  function AcceptText(u: string): seq<string>
  {
    Accept(Some(u))
  }

  /** `add` applied to each value in turn. */
  function AcceptAll(us: seq<string>): seq<string>
  {
    FlatMap(us, AcceptText)
  }

  /** Accepted values pass the filter again unchanged. */
  lemma {:induction false} AcceptAllIdempotent(us: seq<string>)
    ensures AcceptAll(AcceptAll(us)) == AcceptAll(us)
  {
    if us != [] {
      var init, u := us[..|us| - 1], us[|us| - 1];
      var last := Accept(Some(u));
      assert AcceptAll(us) == AcceptAll(init) + AcceptText(u);
      AcceptAllIdempotent(init);
      AcceptAllAppend(AcceptAll(init), last);
      AcceptKeeps(u);
    }
  }

  /** A value `add` keeps is kept again, unchanged. */
  lemma AcceptKeeps(u: string)
    ensures AcceptAll(Accept(Some(u))) == Accept(Some(u))
  {
    var last := Accept(Some(u));
    if last != [] {
      var s := Strip(u);
      assert last == [s];
      StripIdempotent(u);
      assert s != "" by { assert StartsWith(Lower(s), "http://") || StartsWith(Lower(s), "https://"); }
      assert [s][..0] == [];
      assert AcceptAll([s]) == AcceptAll([]) + AcceptText(s);
    }
  }

  lemma AcceptAllAppend(a: seq<string>, b: seq<string>)
    ensures AcceptAll(a + b) == AcceptAll(a) + AcceptAll(b)
  {
    FlatMapAppend(a, b, AcceptText);
  }

  /** How a child of an `<item>` is classified. */
  datatype Field = PostType | AttachmentUrl | Content | OtherField

  /** The classification of `read_urls_from_wxr` as written: any tag ending
      in `encoded` is taken as the content, including the excerpt. */
  function TagFieldAsWritten(tag: string): Field
  {
    if EndsWith(tag, "post_type") then PostType
    else if EndsWith(tag, "attachment_url") then AttachmentUrl
    else if EndsWith(tag, "encoded") then Content
    else OtherField
  }

  /** The classification with only `content:encoded` taken as the content. */
  function TagField(tag: string): Field
  {
    if EndsWith(tag, "post_type") then PostType
    else if EndsWith(tag, "attachment_url") then AttachmentUrl
    else if EndsWith(tag, ContentEncoded) then Content
    else OtherField
  }

  /** The two classifications differ only on tags the source takes for the
      content and the corrected test does not: those ending in `encoded`
      but not in `/content/}encoded`. */
  lemma TagFieldNarrower(tag: string)
    ensures TagField(tag) != TagFieldAsWritten(tag) <==>
      TagFieldAsWritten(tag) == Content && !EndsWith(tag, ContentEncoded)
    ensures TagField(tag) != TagFieldAsWritten(tag) ==> TagField(tag) == OtherField
  {
    if EndsWith(tag, ContentEncoded) {
      assert tag[|tag| - 7..] == ContentEncoded[10..];
    }
  }

  const ContentEncoded: string := "/content/}encoded"
  const ContentTag: string := "{http://purl.org/rss/1.0/modules/content/}encoded"
  const ExcerptTag: string := "{http://wordpress.org/export/1.2/excerpt/}encoded"

  /** What an item records: post type (stripped), attachment URL (stripped)
      and content text, each from the last child of its kind. */
  datatype ItemFields = ItemFields(postType: Option<string>, attUrl: Option<string>,
                                   content: Option<string>)

  function ScanFields(children: seq<XChild>, field: string -> Field): ItemFields
  {
    if children == [] then ItemFields(None, None, None)
    else
      var f := ScanFields(children[..|children| - 1], field);
      var ch := children[|children| - 1];
      match field(ch.tag)
      case PostType => f.(postType := Some(Strip(ch.text.GetOr(""))))
      case AttachmentUrl => f.(attUrl := Some(Strip(ch.text.GetOr(""))))
      case Content => f.(content := Some(ch.text.GetOr("")))
      case OtherField => f
  }

  /** The loop over an item's children, with the source's `endswith("encoded")`
      test for the content. */
  method ScanItem(children: seq<XChild>) returns (f: ItemFields)
    ensures f == ScanFields(children, TagFieldAsWritten)
  {
    f := ItemFields(None, None, None);
    for i := 0 to |children|
      invariant f == ScanFields(children[..i], TagFieldAsWritten)
    {
      assert children[..i + 1][..i] == children[..i];
      var ch := children[i];
      var tag := ch.tag;
      if EndsWith(tag, "post_type") {
        f := f.(postType := Some(Strip(ch.text.GetOr(""))));
      } else if EndsWith(tag, "attachment_url") {
        f := f.(attUrl := Some(Strip(ch.text.GetOr(""))));
      } else if EndsWith(tag, "encoded") {
        f := f.(content := Some(ch.text.GetOr("")));
      }
    }
    assert children[..|children|] == children;
  }

  /** The URLs an item adds: its attachment URL when it is an attachment,
      then the accepted links of its content. `hrefs` stands for the
      `href`/`src` pattern search. */
  function FieldUrls(f: ItemFields, hrefs: string -> seq<string>): seq<string>
  {
    var att := if f.postType == Some("attachment") && f.attUrl.Some? && f.attUrl.value != ""
               then Accept(f.attUrl) else [];
    var links := if f.content.Some? && f.content.value != "" then AcceptAll(hrefs(f.content.value)) else [];
    att + links
  }

  /** The URLs one item adds when its children are classified by `field`
      (`TagFieldAsWritten` in the source, `TagField` when corrected). */
  function ItemUrls(children: seq<XChild>, field: string -> Field, hrefs: string -> seq<string>): seq<string>
  {
    FieldUrls(ScanFields(children, field), hrefs)
  }

  /** An attachment's URL comes first, before the links of its content; an
      item that is not an attachment adds its content links only. */
  lemma AttachmentFirst(f: ItemFields, hrefs: string -> seq<string>)
    ensures f.postType == Some("attachment") && f.attUrl.Some? && IsWebUrl(Strip(f.attUrl.value)) ==>
      FieldUrls(f, hrefs) != [] && FieldUrls(f, hrefs)[0] == Strip(f.attUrl.value)
    ensures f.postType != Some("attachment") ==>
      FieldUrls(f, hrefs) == if f.content.Some? && f.content.value != "" then AcceptAll(hrefs(f.content.value)) else []
  {
  }

  /** How the two `encoded` children of an exported post are classified. */
  lemma EncodedTags()
    ensures TagFieldAsWritten(ExcerptTag) == Content
    ensures TagField(ExcerptTag) == OtherField
    ensures TagField(ContentTag) == Content
  {
    ExcerptAsWritten();
    ExcerptNotContent();
    ContentTagField();
  }

  lemma ExcerptAsWritten()
    ensures TagFieldAsWritten(ExcerptTag) == Content
  {
    var e := ExcerptTag;
    EndsDiffer(e, "post_type", 1);
    EndsDiffer(e, "attachment_url", 1);
    assert e[|e| - 7..] == "encoded";
  }

  lemma ExcerptNotContent()
    ensures TagField(ExcerptTag) == OtherField
  {
    var e := ExcerptTag;
    EndsDiffer(e, "post_type", 1);
    EndsDiffer(e, "attachment_url", 1);
    EndsDiffer(e, ContentEncoded, 16);
  }

  lemma ContentAsWritten()
    ensures TagFieldAsWritten(ContentTag) == Content
  {
    var c := ContentTag;
    EndsDiffer(c, "post_type", 1);
    EndsDiffer(c, "attachment_url", 1);
    assert c[|c| - 7..] == "encoded";
  }

  lemma ContentTagField()
    ensures TagField(ContentTag) == Content
  {
    var c := ContentTag;
    assert EndsWith(c, ContentEncoded) by {
      assert c[|c| - 17..] == ContentEncoded;
    }
    EndsDiffer(c, "post_type", 1);
    EndsDiffer(c, "attachment_url", 1);
  }

  /** A text does not end with `p` when the two differ `k` places from the end. */
  lemma EndsDiffer(s: string, p: string, k: nat)
    requires 0 < k <= |p| <= |s| && s[|s| - k] != p[|p| - k]
    ensures !EndsWith(s, p)
  {
    assert s[|s| - |p|..][|p| - k] == s[|s| - k];
  }


  /** A post's content followed by its empty excerpt. */
  function PostChildren(html: string): seq<XChild>
  {
    [XChild(ContentTag, Some(html)), XChild(ExcerptTag, None)]
  }

  /** As written, the excerpt that every exported post carries after its
      content (`excerpt:encoded`, usually empty) replaces the content, so
      the links in the content are lost. */
  lemma ExcerptHidesContent(html: string, hrefs: string -> seq<string>)
    ensures ItemUrls(PostChildren(html), TagFieldAsWritten, hrefs) == []
  {
    ExcerptFields(html);
  }

  lemma ExcerptFields(html: string)
    ensures ScanFields(PostChildren(html), TagFieldAsWritten) == ItemFields(None, None, Some(""))
  {
    var cs := PostChildren(html);
    ExcerptAsWritten();
    ContentAsWritten();
    assert cs[..1] == [cs[0]] && cs[..1][..0] == [];
    assert ScanFields(cs[..1][..0], TagFieldAsWritten) == ItemFields(None, None, None);
    assert ScanFields(cs[..1], TagFieldAsWritten) == ItemFields(None, None, Some(html));
  }

  /** With only `content:encoded` taken as the content, the same item adds
      the links of its content. */
  lemma ContentKept(html: string, hrefs: string -> seq<string>)
    requires html != ""
    ensures ItemUrls(PostChildren(html), TagField, hrefs) == AcceptAll(hrefs(html))
  {
    ContentFields(html);
  }

  lemma ContentFields(html: string)
    ensures ScanFields(PostChildren(html), TagField) == ItemFields(None, None, Some(html))
  {
    var cs := PostChildren(html);
    EncodedTags();
    assert cs[..1] == [cs[0]] && cs[..1][..0] == [];
    assert ScanFields(cs[..1][..0], TagField) == ItemFields(None, None, None);
    assert ScanFields(cs[..1], TagField) == ItemFields(None, None, Some(html));
  }

  // ------------------------------------------------------------ de-duplication

  /** First occurrences only, in order. */
  function Dedup(s: seq<string>): (d: seq<string>)
    ensures |d| <= |s|
    ensures forall x :: x in d <==> x in s
  {
    if s == [] then []
    else
      var d := Dedup(s[..|s| - 1]);
      if s[|s| - 1] in d then d else d + [s[|s| - 1]]
  }

  /** The de-duplication loop with its `seen` set. */
  method Deduplicate(urls: seq<string>) returns (uniq: seq<string>)
    ensures uniq == Dedup(urls)
  {
    var seen: set<string> := {};
    uniq := [];
    for i := 0 to |urls|
      invariant uniq == Dedup(urls[..i])
      invariant forall x :: x in seen <==> x in uniq
    {
      assert urls[..i + 1][..i] == urls[..i];
      var u := urls[i];
      if u !in seen {
        seen := seen + {u};
        uniq := uniq + [u];
      }
    }
    assert urls[..|urls|] == urls;
  }

  /** No URL appears twice. */
  lemma {:induction false} DedupDistinct(s: seq<string>)
    ensures forall i, j :: 0 <= i < j < |Dedup(s)| ==> Dedup(s)[i] != Dedup(s)[j]
  {
    if s != [] {
      DedupDistinct(s[..|s| - 1]);
    }
  }

  /** The result is a subsequence of the input. */
  lemma {:induction false} DedupSubsequence(s: seq<string>)
    ensures IsSubsequence(Dedup(s), s)
  {
    if s != [] {
      var init, x := s[..|s| - 1], s[|s| - 1];
      DedupSubsequence(init);
      if x in Dedup(init) {
        SubsequenceDropLast(Dedup(init), s);
      } else {
        assert Dedup(s)[..|Dedup(s)| - 1] == Dedup(init);
      }
    }
  }

  /** The result lists the URLs in the order of their first occurrence. */
  lemma {:induction false} DedupOrder(s: seq<string>)
    ensures forall i, j :: 0 <= i < j < |Dedup(s)| ==>
      FirstIndex(s, Dedup(s)[i]) < FirstIndex(s, Dedup(s)[j])
  {
    if s != [] {
      var init, x := s[..|s| - 1], s[|s| - 1];
      var d0, d := Dedup(init), Dedup(s);
      DedupOrder(init);
      assert s == init + [x];
      forall i, j | 0 <= i < j < |d|
        ensures FirstIndex(s, d[i]) < FirstIndex(s, d[j])
      {
        assert d[i] == d0[i] && d0[i] in init;
        FirstIndexInit(init, x, d0[i]);
        if j < |d0| {
          assert d[j] == d0[j] && d0[j] in init;
          FirstIndexInit(init, x, d0[j]);
        } else {
          assert x !in init && d[j] == x;
          FirstIndexAppend(init, [x], x);
        }
      }
    }
  }



  // ------------------------------------------------------------ the export

  /** What `read_urls_from_wxr` returns or raises, given the parse of the
      file (or the parser's error message), when item children are
      classified by `field`: the source is `ReadWxr(path, doc,
      TagFieldAsWritten, hrefs)`. */
  function ReadWxr(path: Option<string>, doc: Result<seq<XElem>>, field: string -> Field,
                   hrefs: string -> seq<string>): Result<seq<string>>
  {
    if !IsXml(path) then Err(NotXml)
    else if doc.Err? then Err("XML parse hatas\U{131}: " + doc.message)
    else Ok(Dedup(AllItemUrls(doc.value, field, hrefs)))
  }

  /** The URLs of every element whose tag ends in `item`, in order. */
  function AllItemUrls(elems: seq<XElem>, field: string -> Field, hrefs: string -> seq<string>): seq<string>
  {
    if elems == [] then []
    else
      var e := elems[|elems| - 1];
      AllItemUrls(elems[..|elems| - 1], field, hrefs) +
        (if EndsWith(e.tag, "item") then ItemUrls(e.children, field, hrefs) else [])
  }

  /** `read_urls_from_wxr` on the parsed file, as written. */
  method ReadUrlsFromWxr(path: Option<string>, doc: Result<seq<XElem>>, hrefs: string -> seq<string>)
    returns (r: Result<seq<string>>)
    ensures r == ReadWxr(path, doc, TagFieldAsWritten, hrefs)
  {
    if !IsXml(path) {
      return Err(NotXml);
    }
    if doc.Err? {
      return Err("XML parse hatas\U{131}: " + doc.message);
    }
    var elems := doc.value;
    var urls: seq<string> := [];
    for i := 0 to |elems|
      invariant urls == AllItemUrls(elems[..i], TagFieldAsWritten, hrefs)
    {
      assert elems[..i + 1][..i] == elems[..i];
      var e := elems[i];
      if EndsWith(e.tag, "item") {
        var f := ScanItem(e.children);
        urls := urls + FieldUrls(f, hrefs);
      }
    }
    assert elems[..|elems|] == elems;
    var uniq := Deduplicate(urls);
    return Ok(uniq);
  }

  /** Every URL read from an export is a stripped `http`/`https` URL, and
      none appears twice, whichever way the item children are classified. */
  lemma ReadWxrUrls(path: Option<string>, doc: Result<seq<XElem>>, field: string -> Field,
                    hrefs: string -> seq<string>)
    requires ReadWxr(path, doc, field, hrefs).Ok?
    ensures var urls := ReadWxr(path, doc, field, hrefs).value;
      (forall i :: 0 <= i < |urls| ==> IsWebUrl(urls[i]) && Strip(urls[i]) == urls[i]) &&
      (forall i, j :: 0 <= i < j < |urls| ==> urls[i] != urls[j])
  {
    var all := AllItemUrls(doc.value, field, hrefs);
    DedupDistinct(all);
    AllItemUrlsAccepted(doc.value, field, hrefs);
  }

  lemma {:induction false} AllItemUrlsAccepted(elems: seq<XElem>, field: string -> Field,
                                               hrefs: string -> seq<string>)
    ensures forall u :: u in AllItemUrls(elems, field, hrefs) ==> IsWebUrl(u) && Strip(u) == u
  {
    if elems != [] {
      AllItemUrlsAccepted(elems[..|elems| - 1], field, hrefs);
      var e := elems[|elems| - 1];
      FieldUrlsAccepted(ScanFields(e.children, field), hrefs);
    }
  }

  /** As written, an export holding one ordinary post yields no URLs at all,
      whatever links its content holds. */
  lemma PostLost(path: Option<string>, html: string, hrefs: string -> seq<string>)
    requires IsXml(path)
    ensures ReadWxr(path, Ok([XElem("item", PostChildren(html))]), TagFieldAsWritten, hrefs) == Ok([])
  {
    var es := [XElem("item", PostChildren(html))];
    ExcerptHidesContent(html, hrefs);
    assert es[..0] == [] && EndsWith("item", "item");
    assert AllItemUrls(es, TagFieldAsWritten, hrefs) == [];
  }

  /** With the corrected classification the same export yields the accepted
      links of the post, each once. */
  lemma PostKept(path: Option<string>, html: string, hrefs: string -> seq<string>)
    requires IsXml(path) && html != ""
    ensures ReadWxr(path, Ok([XElem("item", PostChildren(html))]), TagField, hrefs) ==
      Ok(Dedup(AcceptAll(hrefs(html))))
  {
    var es := [XElem("item", PostChildren(html))];
    ContentKept(html, hrefs);
    assert es[..0] == [] && EndsWith("item", "item");
    assert AllItemUrls(es, TagField, hrefs) == AcceptAll(hrefs(html));
  }

  /** Every URL an item adds is a stripped web URL. */
  lemma FieldUrlsAccepted(f: ItemFields, hrefs: string -> seq<string>)
    ensures forall u :: u in FieldUrls(f, hrefs) ==> IsWebUrl(u) && Strip(u) == u
  {
    var att := if f.postType == Some("attachment") && f.attUrl.Some? && f.attUrl.value != ""
               then Accept(f.attUrl) else [];
    var links := if f.content.Some? && f.content.value != "" then AcceptAll(hrefs(f.content.value)) else [];
    assert FieldUrls(f, hrefs) == att + links;
    if f.content.Some? && f.content.value != "" {
      AcceptAllAccepted(hrefs(f.content.value));
    }
    AcceptAccepted(f.attUrl);
    assert forall u :: u in att + links ==> u in att || u in links;
  }

  /** What `add` keeps is a stripped web URL. */
  lemma AcceptAccepted(u: Option<string>)
    ensures forall v :: v in Accept(u) ==> IsWebUrl(v) && Strip(v) == v
  {
    if Accept(u) != [] {
      AcceptSpec(u);
      StripIdempotent(u.value);
      assert Accept(u) == [Strip(u.value)];
    }
  }

  lemma {:induction false} AcceptAllAccepted(us: seq<string>)
    ensures forall u :: u in AcceptAll(us) ==> IsWebUrl(u) && Strip(u) == u
  {
    if us != [] {
      var init, last := us[..|us| - 1], us[|us| - 1];
      AcceptAllAccepted(init);
      AcceptAccepted(Some(last));
      assert AcceptAll(us) == AcceptAll(init) + AcceptText(last);
      assert forall u :: u in AcceptAll(init) + AcceptText(last) ==> u in AcceptAll(init) || u in AcceptText(last);
    }
  }
}
