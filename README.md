# Embedding a folder as C byte arrays — a Dafny model

`folder_to_carray.py` walks a folder and writes a C definitions file in which
every file becomes a `const unsigned char` array (a string literal of `\xHH`
escapes, sixteen bytes per line) with a `<name>_len` constant, followed by the
`embedded_files` table that maps each file's uri (`"/" + rel_path`, plus a `/`
alias for a root-level `index.html`) to its array, length and content type.

This project models that generation pass and proves what it promises:

- `Identifiers`: `to_c_identifier` as four chained single-character
  replacements, and the backslash-to-slash normalisation of relative paths.
- `Mime`: `guess_mime_type`, with the host library's extension table as a
  parameter (`string -> Option<string>`) and the `application/octet-stream`
  fallback.
- `ByteArray`: the escape encoder, its decoder, the split into literal lines,
  the decimal length constant and `file_to_c_array` itself, written as a loop
  over the bytes that accumulates `line` and writes it to an output stream.
- `OutputStream`: the `f_c` handle, modelled as the sequence of strings
  written to it (`Writer.written`).
- `FileTable`: `file_entries` tuples and table rows as datatypes, the row
  order and count (`embedded_files_count`), and the loop that writes the rows.
- `Generator`: the walk loop over the ordered list of files the walk yields,
  producing the array definitions and `file_entries`, then the table.

Points where the code is followed as written:

- For a zero-length file the code writes no literal line at all, so the
  generated C is `const unsigned char X[] = ` followed by `;`: an array with
  an empty initializer, which a C compiler rejects. The evidently intended
  output is an empty array literal, `""`. `ByteArray.FileToCArray` models the
  code as written (`ByteArray.EmptyFileDefinition`); the corrected literal is
  `ByteArray.CorrectedLiteralLines`, and it equals the as-written literal for
  every non-empty file, so every other property carries over to it (see
  "## Findings").
- The docstring of `to_c_identifier` promises a valid C identifier. The code
  only replaces `/`, `\`, `-` and `.`: a leading digit stays
  (`Identifiers.LeadingDigitKept`: `1.c` gives `1_c`), and so does any other
  character a C identifier cannot hold (`Identifiers.SpaceKept`: `a b` stays
  `a b`). The model follows the code.
- The last literal line holds the remaining 1 to 16 bytes: when the length is
  a multiple of 16 the last line is a full one written inside the loop, and
  the final flush writes nothing (`ByteArray.LiteralLinesShape`).

Only a file named exactly `index.html` at the root of the walk gets the `/`
alias row (`FileTable.NestedIndexHasNoAlias`).

## Model

| member | source | states |
|---|---|---|
| `Identifiers.ReplaceChar` | folder_to_carray.py:46-49 | one `str.replace` with single characters keeps the length |
| `Identifiers.ReplaceCharAt` | folder_to_carray.py:46-49 | each occurrence of the old character becomes the new one and every other character stays in place |
| `Identifiers.ToCIdentifier` | folder_to_carray.py:43-50 | the symbol name has the path's length |
| `Identifiers.ToCIdentifierAt` | folder_to_carray.py:43-50 | at each position `/`, `\`, `-`, `.` become `_`, any other character is unchanged, and the result holds none of the four |
| `Identifiers.ToCIdentifierChars` | folder_to_carray.py:43-50 | the same for all positions at once |
| `Identifiers.ToCIdentifierIdempotent` | folder_to_carray.py:45-50 | sanitising twice equals sanitising once |
| `Identifiers.ToCIdentifierFixedPoint` | folder_to_carray.py:45-50 | a path is its own symbol name if and only if it holds none of the four replaced characters |
| `Identifiers.LeadingDigitKept` | folder_to_carray.py:43-50 | `1.c` becomes `1_c`, which starts with a digit and so is not a C identifier |
| `Identifiers.SpaceKept` | folder_to_carray.py:43-50 | `a b` is left as `a b`, which is not a C identifier |
| `Identifiers.SymbolCollision` | folder_to_carray.py:43-50 | distinct paths (`a-b`, `a.b`) give the same symbol name; nothing detects it |
| `Identifiers.NormalizeSeparators` | folder_to_carray.py:100 | normalising keeps the length |
| `Identifiers.NormalizeSeparatorsChars` | folder_to_carray.py:100 | every backslash becomes `/`, nothing else changes, no backslash remains |
| `Identifiers.ToCIdentifierIgnoresNormalization` | folder_to_carray.py:100-101 | the symbol of the normalised path equals the symbol of the raw path |
| `Mime.GuessMimeType` | folder_to_carray.py:52-54 | the type is the lookup result when it is a non-empty string, otherwise `application/octet-stream`; it is never empty |
| `ByteArray.HexDigit` | folder_to_carray.py:67 | a digit of `02x` is a lowercase hex digit whose value is the input |
| `ByteArray.Escape` | folder_to_carray.py:67 | a byte becomes exactly four characters: `\`, `x`, then high and low lowercase hex digits whose value is the byte |
| `ByteArray.Escapes` | folder_to_carray.py:66-67 | n bytes give 4n characters |
| `ByteArray.EscapesAt` | folder_to_carray.py:66-67 | byte k is rendered as characters 4k to 4k+4 |
| `ByteArray.DecodeEscapesRoundTrip` | folder_to_carray.py:66-67 | decoding the escapes returns the bytes |
| `ByteArray.DecodeEscapesCanonical` | folder_to_carray.py:67 | any text that decodes to some bytes is exactly their escapes |
| `ByteArray.DecodeLineOf` | folder_to_carray.py:69-72 | a written line (`"` + escapes + `"` and newline) decodes to its bytes |
| `ByteArray.ChunksCount` | folder_to_carray.py:65-72 | n bytes make ceil(n/16) groups |
| `ByteArray.ChunkAt` | folder_to_carray.py:65-72 | group k is bytes 16k up to min(16k+16, n) |
| `ByteArray.FlattenChunks` | folder_to_carray.py:65-72 | the groups joined in order are the data |
| `ByteArray.LiteralRoundTrip` | folder_to_carray.py:65-72 | decoding the literal lines and joining them returns the file's bytes |
| `ByteArray.LiteralLinesShape` | folder_to_carray.py:65-72 | ceil(n/16) lines, none for empty data; all but the last carry 16 escapes, the last the remaining 1 to 16 bytes |
| `ByteArray.Decimal` | folder_to_carray.py:75 | `str(n)` is a non-empty run of digits, and begins with `0` only when it is exactly `0`, the text of zero |
| `ByteArray.DecimalRoundTrip` | folder_to_carray.py:75 | parsing the decimal text gives back the number |
| `ByteArray.LengthConstantRoundTrip` | folder_to_carray.py:75 | the `<name>_len` line declares exactly the given length |
| `ByteArray.ArrayDefinitionRoundTrip` | folder_to_carray.py:61-75 | a definition is comment, header, ceil(n/16) literal lines, `;` and length constant; the literal decodes to the data and the constant declares `len(data)` |
| `ByteArray.EmptyFileDefinition` | folder_to_carray.py:61-75 | an empty file gets comment, header, `;` and a zero length constant, with no literal line, so the array has no initializer |
| `ByteArray.CorrectedLiteralLines` | folder_to_carray.py:65-72 | the corrected literal always has an initializer |
| `ByteArray.CorrectedLiteralRoundTrip` | folder_to_carray.py:65-72 | the corrected literal is `""` for an empty file, the as-written literal otherwise, and decodes to the data for every file |
| `ByteArray.WriteLiteralLines` | folder_to_carray.py:65-72 | the loop, with `line` reset to `"` after each 16th byte and a non-empty remainder flushed, appends exactly the literal lines |
| `ByteArray.FileToCArray` | folder_to_carray.py:56-75 | appends exactly the file's array definition to the stream |
| `OutputStream.Writer.constructor` | folder_to_carray.py:82 | a stream opened for writing starts empty |
| `OutputStream.Writer.Write` | folder_to_carray.py:69 | a write appends one string and changes nothing else |
| `FileTable.RowCount` | folder_to_carray.py:112-122 | `embedded_files_count` equals the number of entries plus the number of `index.html` entries |
| `FileTable.RowOrder` | folder_to_carray.py:112-121 | entry j's row `"/" + rel_path` stands at its position in entry order, the `/` alias row directly follows it when the path is `index.html`, and the next entry's rows come right after |
| `FileTable.LastRowPosition` | folder_to_carray.py:112-121 | the rows of all entries fill the table exactly |
| `FileTable.IndexAndStylesheet` | folder_to_carray.py:113-120 | `index.html` and `style.css` give `/index.html`, `/` (same array and type) and `/style.css` |
| `FileTable.NestedIndexHasNoAlias` | folder_to_carray.py:117 | `docs/index.html` gets no alias row |
| `FileTable.WriteTable` | folder_to_carray.py:112-122 | writes the opening, one formatted line per row in order, the closing and the count definition |
| `Generator.EntryOfWellFormed` | folder_to_carray.py:100-102 | an entry's path has no backslash, its symbol has none of the four replaced characters and the path's length, its type is non-empty |
| `Generator.ConvertFile` | folder_to_carray.py:99-109 | one walked file appends its array definition and yields its `file_entries` tuple |
| `Generator.ConvertFiles` | folder_to_carray.py:97-109 | the walk loop yields one tuple per file in walk order and writes every array definition in that order |
| `Generator.GenerateDefinitions` | folder_to_carray.py:97-122 | the definitions file after its fixed header is all array definitions followed by the table |
| `Generator.IndexCountOfEntries` | folder_to_carray.py:100-117 | the entries named `index.html` are the files whose normalised relative path is `index.html` |
| `Generator.GeneratedCount` | folder_to_carray.py:109-122 | the table has one row per walked file plus one per root-level `index.html` |

## Left out

- Argument count and folder existence checks, their messages and exit codes (folder_to_carray.py:27-38): process plumbing.
- `os.walk`, `os.path.join` and `os.path.relpath` (folder_to_carray.py:97-100): the walk is a parameter, the ordered list of files it yields, each with its relative path, full path and bytes; its order is not modelled.
- Reading a file (folder_to_carray.py:58-59): the bytes are a parameter; read errors are not modelled.
- The contents of the `mimetypes` extension table (folder_to_carray.py:53): a parameter of `Mime.GuessMimeType`.
- The header file (folder_to_carray.py:84-90, 106-107, 125-126): its struct definition and the table's declarations are fixed text, and its per-file `extern` pair is built from the symbol name already modelled as `EntryOf(...).arrayName`; the file is left out as a whole.
- The fixed first lines of the definitions file (folder_to_carray.py:93-94): constant strings.
- What the C compiler makes of the output, including the value `sizeof` gives (folder_to_carray.py:122): the count is stated as the number of table rows.
- Closing the files and the final message (folder_to_carray.py:82, 128).

## Findings

| source | as written | input that shows it | evidently intended | confidence | as-written member | corrected member |
|---|---|---|---|---|---|---|
| folder_to_carray.py:62,65-74 | for empty data no literal line is written between `= ` and `;` | a zero-byte file | an empty literal `""` so the array definition compiles | high; not executed | `ByteArray.EmptyFileDefinition` | `ByteArray.CorrectedLiteralRoundTrip` |
