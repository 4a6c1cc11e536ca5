/**
 * The `embedded_files` table: one row per entry, in entry order, and an extra
 * `/` row directly after an entry whose relative path is `index.html`.
 */
module FileTable {
  import opened OutputStream

  /** One `(rel_path, array_name, mime_type)` tuple of `file_entries`. */
  datatype Entry = Entry(relPath: string, arrayName: string, mimeType: string)

  /** One `embedded_file_t` initializer: the uri, the array (and its `_len` constant), the content type. */
  datatype Row = Row(uri: string, arrayName: string, contentType: string)

  const IndexPage := "index.html"
  const RootUri := "/"

  /** The rows one entry contributes. */
  function RowsOf(e: Entry): seq<Row> {
    [Row("/" + e.relPath, e.arrayName, e.mimeType)]
      + (if e.relPath == IndexPage then [Row(RootUri, e.arrayName, e.mimeType)] else [])
  }

  function TableRows(entries: seq<Entry>): seq<Row> {
    if entries == [] then []
    else TableRows(entries[..|entries| - 1]) + RowsOf(entries[|entries| - 1])
  }

  /** How many entries have relative path exactly `index.html`. */
  function IndexCount(entries: seq<Entry>): nat {
    if entries == [] then 0
    else IndexCount(entries[..|entries| - 1]) + (if entries[|entries| - 1].relPath == IndexPage then 1 else 0)
  }

  /** `embedded_files_count`: the number of initializers in the table. */
  function EmbeddedFilesCount(entries: seq<Entry>): nat {
    |TableRows(entries)|
  }

  lemma {:induction false} RowCount(entries: seq<Entry>)
    ensures EmbeddedFilesCount(entries) == |entries| + IndexCount(entries)
  {
    if entries != [] {
      RowCount(entries[..|entries| - 1]);
    }
  }

  /** Where the row of entry `j` stands: one row per earlier entry, plus one per earlier `index.html`. */
  function RowPosition(entries: seq<Entry>, j: nat): nat
    requires j <= |entries|
  {
    j + IndexCount(entries[..j])
  }

  /**
   * Rows follow entry order: entry `j`'s row `"/" + rel_path` stands at its
   * position, the alias `/` row directly follows it exactly when its path is
   * `index.html`, and the next entry's row comes right after those.
   */
  lemma {:induction false} RowOrder(entries: seq<Entry>, j: nat)
    requires j < |entries|
    ensures var rows, e, p := TableRows(entries), entries[j], RowPosition(entries, j);
      p + |RowsOf(e)| == RowPosition(entries, j + 1) <= |rows| &&
      rows[p] == Row("/" + e.relPath, e.arrayName, e.mimeType) &&
      (e.relPath == IndexPage ==> rows[p + 1] == Row(RootUri, e.arrayName, e.mimeType))
  {
    var n := |entries|;
    var init := entries[..n - 1];
    assert entries[..j + 1][..j] == entries[..j];
    if j < n - 1 {
      RowOrder(init, j);
      assert init[..j] == entries[..j] && init[..j + 1] == entries[..j + 1];
    } else {
      RowCount(init);
      assert entries[..j] == init && entries[..j + 1] == entries;
    }
  }

  /** The table holds no rows beyond those of its entries. */
  lemma LastRowPosition(entries: seq<Entry>)
    ensures RowPosition(entries, |entries|) == |TableRows(entries)|
  {
    RowCount(entries);
    assert entries[..|entries|] == entries;
  }

  /** A root-level `index.html` and a stylesheet give three rows, the alias second. */
  lemma IndexAndStylesheet(index: Entry, style: Entry)
    requires index.relPath == "index.html" && style.relPath == "style.css"
    ensures TableRows([index, style]) == [
      Row("/index.html", index.arrayName, index.mimeType),
      Row("/", index.arrayName, index.mimeType),
      Row("/style.css", style.arrayName, style.mimeType)]
  {
    assert [index, style][..1] == [index];
    assert [index][..0] == [];
    assert TableRows([index]) == RowsOf(index);
    assert style.relPath != IndexPage by { assert style.relPath[0] != IndexPage[0]; }
    assert "/" + style.relPath == "/style.css";
    assert "/" + index.relPath == "/index.html";
  }

  /** A path nested below the root, even one ending in `index.html`, gets no alias. */
  lemma NestedIndexHasNoAlias(e: Entry)
    requires e.relPath == "docs/index.html"
    ensures TableRows([e]) == [Row("/docs/index.html", e.arrayName, e.mimeType)]
  {
    assert [e][..0] == [];
    assert e.relPath != IndexPage by { assert |e.relPath| != |IndexPage|; }
    assert TableRows([e]) == RowsOf(e);
    assert "/" + e.relPath == "/docs/index.html";
  }

  // ----- Writing the table -----

  /** `{"<uri>", <name>, <name>_len, "<type>"},` on its own line. */
  function FormatRow(r: Row): string {
    "    {\"" + r.uri + "\", " + r.arrayName + ", " + r.arrayName + "_len, \"" + r.contentType + "\"},\n"
  }

  function FormatRows(rows: seq<Row>): (lines: seq<string>)
    ensures |lines| == |rows|
  {
    seq(|rows|, k requires 0 <= k < |rows| => FormatRow(rows[k]))
  }

  lemma FormatRowsAppend(a: seq<Row>, b: seq<Row>)
    ensures FormatRows(a + b) == FormatRows(a) + FormatRows(b)
  {
  }

  const TableOpen := "embedded_file_t embedded_files[] = {\n"
  const TableClose := "};\n\n"
  const CountDefinition := "int embedded_files_count = sizeof(embedded_files) / sizeof(embedded_files[0]);\n"

  /** Everything the table section writes: the opening, one line per row, the closing and the count. */
  function TableText(entries: seq<Entry>): seq<string> {
    [TableOpen] + FormatRows(TableRows(entries)) + [TableClose, CountDefinition]
  }

  /** The main block's loop over `file_entries`, writing each row and, after `index.html`, the alias row. */
  method WriteTable(f: Writer, entries: seq<Entry>)
    modifies f
    ensures f.written == old(f.written) + TableText(entries)
  {
    f.Write(TableOpen);
    ghost var start := f.written;
    for i := 0 to |entries|
      invariant f.written == start + FormatRows(TableRows(entries[..i]))
    {
      var e := entries[i];
      assert entries[..i + 1][..i] == entries[..i];
      FormatRowsAppend(TableRows(entries[..i]), RowsOf(e));
      f.Write(FormatRow(Row("/" + e.relPath, e.arrayName, e.mimeType)));
      if e.relPath == IndexPage {
        f.Write(FormatRow(Row(RootUri, e.arrayName, e.mimeType)));
      }
    }
    assert entries[..|entries|] == entries;
    f.Write(TableClose);
    f.Write(CountDefinition);
  }
}
