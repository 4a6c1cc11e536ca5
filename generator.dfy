/**
 * The generation pass over the files the directory walk found: one array
 * definition and one `file_entries` tuple per file, then the table.
 */
module Generator {
  import opened Wrappers
  import opened Identifiers
  import opened Mime
  import opened ByteArray
  import opened FileTable
  import opened OutputStream

  /**
   * One file as the walk yields it: its path relative to the input folder
   * (with the platform's separators), its full path, and its bytes.
   */
  datatype WalkedFile = WalkedFile(relPath: string, fullPath: string, data: seq<byte>)

  /** The tuple appended to `file_entries` for one file. */
  function EntryOf(file: WalkedFile, guess: string -> Option<string>): Entry {
    var rel := NormalizeSeparators(file.relPath);
    Entry(rel, ToCIdentifier(rel), GuessMimeType(guess, file.fullPath))
  }

  /** Every entry has a forward-slash path, a sanitised symbol of the same length and a non-empty content type. */
  lemma EntryOfWellFormed(file: WalkedFile, guess: string -> Option<string>)
    ensures var e := EntryOf(file, guess);
      (forall i :: 0 <= i < |e.relPath| ==> e.relPath[i] != '\\') &&
      e.arrayName == ToCIdentifier(file.relPath) &&
      |e.arrayName| == |e.relPath| == |file.relPath| &&
      (forall i :: 0 <= i < |e.arrayName| ==> !IsReplaced(e.arrayName[i])) &&
      e.mimeType != ""
  {
    ToCIdentifierIgnoresNormalization(file.relPath);
    NormalizeSeparatorsChars(file.relPath);
    ToCIdentifierChars(NormalizeSeparators(file.relPath));
  }

  /** `file_entries` after the walk: one tuple per file, in walk order. */
  function Entries(files: seq<WalkedFile>, guess: string -> Option<string>): (entries: seq<Entry>)
    ensures |entries| == |files|
  {
    if files == [] then [] else Entries(files[..|files| - 1], guess) + [EntryOf(files[|files| - 1], guess)]
  }

  /** The array definitions of all files, in walk order. */
  function Definitions(files: seq<WalkedFile>, guess: string -> Option<string>): seq<string> {
    if files == [] then []
    else
      var last := files[|files| - 1];
      Definitions(files[..|files| - 1], guess) + ArrayDefinition(last.fullPath, EntryOf(last, guess).arrayName, last.data)
  }

  lemma EntriesStep(files: seq<WalkedFile>, i: nat, guess: string -> Option<string>)
    requires i < |files|
    ensures Entries(files[..i + 1], guess) == Entries(files[..i], guess) + [EntryOf(files[i], guess)]
  {
    assert files[..i + 1][..i] == files[..i];
  }

  lemma DefinitionsStep(files: seq<WalkedFile>, i: nat, guess: string -> Option<string>)
    requires i < |files|
    ensures Definitions(files[..i + 1], guess) == Definitions(files[..i], guess)
      + ArrayDefinition(files[i].fullPath, EntryOf(files[i], guess).arrayName, files[i].data)
  {
    assert files[..i + 1][..i] == files[..i];
  }

  /** One turn of the walk loop extends `file_entries` by the file's tuple and the output by its definition. */
  lemma WalkStep(files: seq<WalkedFile>, i: nat, guess: string -> Option<string>,
                 start: seq<string>, before: seq<string>, after: seq<string>, entries: seq<Entry>, entry: Entry)
    requires i < |files|
    requires entries == Entries(files[..i], guess) && before == start + Definitions(files[..i], guess)
    requires entry == EntryOf(files[i], guess)
    requires after == before + ArrayDefinition(files[i].fullPath, entry.arrayName, files[i].data)
    ensures entries + [entry] == Entries(files[..i + 1], guess)
    ensures after == start + Definitions(files[..i + 1], guess)
  {
    EntriesStep(files, i, guess);
    DefinitionsStep(files, i, guess);
    AppendStep(start, Definitions(files[..i], guess),
               ArrayDefinition(files[i].fullPath, entry.arrayName, files[i].data), before, after);
  }

  lemma AppendStep(start: seq<string>, done: seq<string>, next: seq<string>, before: seq<string>, after: seq<string>)
    requires before == start + done && after == before + next
    ensures after == start + (done + next)
  {
  }

  /** The body of the walk loop for one file: normalise, name, type, write the array, build the tuple. */
  method ConvertFile(f: Writer, file: WalkedFile, guess: string -> Option<string>) returns (entry: Entry)
    modifies f
    ensures entry == EntryOf(file, guess)
    ensures f.written == old(f.written) + ArrayDefinition(file.fullPath, entry.arrayName, file.data)
  {
    var relPath := NormalizeSeparators(file.relPath);
    var arrayName := ToCIdentifier(relPath);
    var mimeType := GuessMimeType(guess, file.fullPath);
    FileToCArray(f, file.fullPath, arrayName, file.data);
    entry := Entry(relPath, arrayName, mimeType);
  }

  /** The walk loop: writes every file's array definition and returns `file_entries`. */
  method ConvertFiles(f: Writer, files: seq<WalkedFile>, guess: string -> Option<string>) returns (entries: seq<Entry>)
    modifies f
    ensures entries == Entries(files, guess)
    ensures f.written == old(f.written) + Definitions(files, guess)
  {
    ghost var start := f.written;
    entries := [];
    for i := 0 to |files|
      invariant entries == Entries(files[..i], guess)
      invariant f.written == start + Definitions(files[..i], guess)
    {
      ghost var before := f.written;
      var entry := ConvertFile(f, files[i], guess);
      WalkStep(files, i, guess, start, before, f.written, entries, entry);
      entries := entries + [entry];
    }
    assert files[..|files|] == files;
  }

  /** The definitions file after the fixed header: all array definitions, then the table. */
  method GenerateDefinitions(f: Writer, files: seq<WalkedFile>, guess: string -> Option<string>)
    modifies f
    ensures f.written == old(f.written) + Definitions(files, guess) + TableText(Entries(files, guess))
  {
    var entries := ConvertFiles(f, files, guess);
    WriteTable(f, entries);
  }

  /** How many walked files have relative path `index.html` once separators are normalised. */
  function IndexFiles(files: seq<WalkedFile>): nat {
    if files == [] then 0
    else IndexFiles(files[..|files| - 1]) + (if NormalizeSeparators(files[|files| - 1].relPath) == IndexPage then 1 else 0)
  }

  /** `embedded_files_count` is the number of files plus one per root-level `index.html`. */
  lemma GeneratedCount(files: seq<WalkedFile>, guess: string -> Option<string>)
    ensures EmbeddedFilesCount(Entries(files, guess)) == |files| + IndexFiles(files)
  {
    RowCount(Entries(files, guess));
    IndexCountOfEntries(files, guess);
  }

  lemma {:induction false} IndexCountOfEntries(files: seq<WalkedFile>, guess: string -> Option<string>)
    ensures IndexCount(Entries(files, guess)) == IndexFiles(files)
  {
    if files != [] {
      var init := files[..|files| - 1];
      assert Entries(files, guess)[..|files| - 1] == Entries(init, guess);
      IndexCountOfEntries(init, guess);
    }
  }
}
