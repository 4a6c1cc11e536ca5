/**
 * `file_to_c_array`: a file's bytes become a C string literal of `\xHH`
 * escapes, sixteen bytes per quoted line, followed by a length constant.
 */
module ByteArray {
  import opened Wrappers
  import opened OutputStream

  type byte = b: int | 0 <= b < 256

  /** Bytes per literal line. */
  const LineWidth := 16

  // ----- Hex digits -----

  predicate IsLowerHex(c: char) {
    '0' <= c <= '9' || 'a' <= c <= 'f'
  }

  function HexValue(c: char): (v: nat)
    requires IsLowerHex(c)
    ensures v < 16
  {
    if c <= '9' then c as int - '0' as int else c as int - 'a' as int + 10
  }

  /** The lowercase hex digit of `d`, as `format(b, "02x")` writes it. */
  function HexDigit(d: nat): (c: char)
    requires d < 16
    ensures IsLowerHex(c) && HexValue(c) == d
  {
    if d < 10 then ('0' as int + d) as char else ('a' as int + d - 10) as char
  }

  lemma HexDigitOfValue(c: char)
    requires IsLowerHex(c)
    ensures HexDigit(HexValue(c)) == c
  {
  }

  // ----- One byte -----

  /** `f"\\x{b:02x}"`: backslash, `x`, high digit, low digit. */
  function Escape(b: byte): (e: string)
    ensures |e| == 4 && e[0] == '\\' && e[1] == 'x'
    ensures IsLowerHex(e[2]) && IsLowerHex(e[3])
    ensures 16 * HexValue(e[2]) + HexValue(e[3]) == b
  {
    ['\\', 'x', HexDigit(b / 16), HexDigit(b % 16)]
  }

  /** The escapes of a run of bytes, in order. */
  function Escapes(bs: seq<byte>): (s: string)
    ensures |s| == 4 * |bs|
  {
    if bs == [] then "" else Escape(bs[0]) + Escapes(bs[1..])
  }

  lemma {:induction false} EscapesSnoc(bs: seq<byte>, b: byte)
    ensures Escapes(bs + [b]) == Escapes(bs) + Escape(b)
  {
    if bs != [] {
      assert (bs + [b])[1..] == bs[1..] + [b];
      EscapesSnoc(bs[1..], b);
    }
  }

  /** Byte `k` of the input is rendered as characters `4k .. 4k+4` of the escapes. */
  lemma {:induction false} EscapesAt(bs: seq<byte>, k: nat)
    requires k < |bs|
    ensures Escapes(bs)[4 * k .. 4 * k + 4] == Escape(bs[k])
  {
    if k > 0 {
      EscapesAt(bs[1..], k - 1);
      assert Escapes(bs)[4 * k .. 4 * k + 4] == Escapes(bs[1..])[4 * (k - 1) .. 4 * (k - 1) + 4];
    }
  }

  // ----- Decoding escapes -----

  /** Reads a string made only of `\xHH` escapes (lowercase digits) back into bytes. */
  function DecodeEscapes(s: string): (r: Option<seq<byte>>)
    ensures r.Some? ==> |s| == 4 * |r.value|
    decreases |s|
  {
    if s == [] then Some([])
    else if |s| >= 4 && s[0] == '\\' && s[1] == 'x' && IsLowerHex(s[2]) && IsLowerHex(s[3]) then
      match DecodeEscapes(s[4..])
      case Some(rest) => Some([16 * HexValue(s[2]) + HexValue(s[3])] + rest)
      case None => None
    else None
  }

  /** Decoding the escapes gives back the bytes. */
  lemma {:induction false} DecodeEscapesRoundTrip(bs: seq<byte>)
    ensures DecodeEscapes(Escapes(bs)) == Some(bs)
  {
    if bs != [] {
      var s := Escapes(bs);
      assert s[..4] == Escape(bs[0]);
      assert s[4..] == Escapes(bs[1..]);
      DecodeEscapesRoundTrip(bs[1..]);
      assert [bs[0]] + bs[1..] == bs;
    }
  }

  /** The escapes are the only text that decodes to given bytes: the encoding is canonical. */
  lemma {:induction false} DecodeEscapesCanonical(s: string, bs: seq<byte>)
    requires DecodeEscapes(s) == Some(bs)
    ensures s == Escapes(bs)
    decreases |s|
  {
    if s != [] {
      var hi, lo := HexValue(s[2]), HexValue(s[3]);
      var b := 16 * hi + lo;
      assert bs[0] == b;
      assert b / 16 == hi && b % 16 == lo;
      HexDigitOfValue(s[2]);
      HexDigitOfValue(s[3]);
      assert Escape(bs[0]) == s[..4];
      DecodeEscapesCanonical(s[4..], bs[1..]);
      assert s == s[..4] + s[4..];
    }
  }

  // ----- Lines -----

  /** One quoted literal line as written: `"` + escapes + `"` and a newline. */
  function LineOf(chunk: seq<byte>): string {
    "\"" + Escapes(chunk) + "\"\n"
  }

  function DecodeLine(line: string): Option<seq<byte>> {
    if |line| >= 3 && line[0] == '"' && line[|line| - 2..] == "\"\n" then DecodeEscapes(line[1..|line| - 2])
    else None
  }

  lemma DecodeLineOf(chunk: seq<byte>)
    ensures DecodeLine(LineOf(chunk)) == Some(chunk)
  {
    var line := LineOf(chunk);
    assert line[1..|line| - 2] == Escapes(chunk);
    DecodeEscapesRoundTrip(chunk);
  }

  /** The source bytes split into consecutive groups of `LineWidth`; the last group may be shorter. */
  function Chunks(d: seq<byte>): seq<seq<byte>>
    decreases |d|
  {
    if |d| == 0 then [] else if |d| <= LineWidth then [d] else [d[..LineWidth]] + Chunks(d[LineWidth..])
  }

  function Flatten(cs: seq<seq<byte>>): seq<byte> {
    if cs == [] then [] else cs[0] + Flatten(cs[1..])
  }

  function Min(a: int, b: int): int {
    if a <= b then a else b
  }

  /** ceil(n/16) groups. */
  lemma {:induction false} ChunksCount(d: seq<byte>)
    ensures |Chunks(d)| == (|d| + LineWidth - 1) / LineWidth
    decreases |d|
  {
    if |d| > LineWidth {
      ChunksCount(d[LineWidth..]);
    }
  }

  lemma SliceOfSuffix(d: seq<byte>, m: nat, a: nat, b: nat)
    requires m <= |d| && a <= b <= |d| - m
    ensures d[m..][a..b] == d[m + a..m + b]
  {
  }

  /** Group `k` is bytes `16k .. min(16k+16, n)`. */
  lemma {:induction false} ChunkAt(d: seq<byte>, k: nat)
    requires k < |Chunks(d)|
    ensures LineWidth * k < |d| && Chunks(d)[k] == d[LineWidth * k .. Min(LineWidth * k + LineWidth, |d|)]
    decreases |d|
  {
    if k > 0 {
      var rest := d[LineWidth..];
      assert Chunks(d)[k] == Chunks(rest)[k - 1];
      ChunkAt(rest, k - 1);
      var lo := LineWidth * (k - 1);
      var hi := Min(lo + LineWidth, |rest|);
      assert LineWidth * k == lo + LineWidth;
      assert Min(LineWidth * k + LineWidth, |d|) == hi + LineWidth;
      SliceOfSuffix(d, LineWidth, lo, hi);
    }
  }

  lemma {:induction false} FlattenChunks(d: seq<byte>)
    ensures Flatten(Chunks(d)) == d
    decreases |d|
  {
    if |d| > LineWidth {
      FlattenChunks(d[LineWidth..]);
      assert Chunks(d)[1..] == Chunks(d[LineWidth..]);
      assert d == d[..LineWidth] + d[LineWidth..];
    } else if |d| > 0 {
      assert Chunks(d)[1..] == [];
    }
  }

  /** Appending a group after whole groups adds exactly one group. */
  lemma {:induction false} ChunksSnoc(p: seq<byte>, c: seq<byte>)
    requires |p| % LineWidth == 0 && 1 <= |c| <= LineWidth
    ensures Chunks(p + c) == Chunks(p) + [c]
    decreases |p|
  {
    if p == [] {
      assert p + c == c;
    } else {
      var q := p[LineWidth..];
      assert (p + c)[..LineWidth] == p[..LineWidth];
      assert (p + c)[LineWidth..] == q + c;
      ChunksSnoc(q, c);
      if q == [] {
        assert p == p[..LineWidth];
      }
    }
  }

  /** The quoted lines of a sequence of groups. */
  function Quoted(cs: seq<seq<byte>>): (lines: seq<string>)
    ensures |lines| == |cs|
  {
    seq(|cs|, k requires 0 <= k < |cs| => LineOf(cs[k]))
  }

  /** The literal lines `file_to_c_array` writes for `data`. */
  function LiteralLines(data: seq<byte>): seq<string> {
    Quoted(Chunks(data))
  }

  lemma LiteralLinesSnoc(p: seq<byte>, c: seq<byte>)
    requires |p| % LineWidth == 0 && 1 <= |c| <= LineWidth
    ensures LiteralLines(p + c) == LiteralLines(p) + [LineOf(c)]
  {
    ChunksSnoc(p, c);
  }

  /** Decodes consecutive literal lines and joins their bytes, as C concatenates adjacent literals. */
  function DecodeLines(lines: seq<string>): Option<seq<byte>> {
    if lines == [] then Some([])
    else match (DecodeLine(lines[0]), DecodeLines(lines[1..]))
      case (Some(a), Some(b)) => Some(a + b)
      case _ => None
  }

  lemma {:induction false} DecodeQuoted(cs: seq<seq<byte>>)
    ensures DecodeLines(Quoted(cs)) == Some(Flatten(cs))
  {
    if cs != [] {
      assert Quoted(cs)[1..] == Quoted(cs[1..]);
      DecodeLineOf(cs[0]);
      DecodeQuoted(cs[1..]);
    }
  }

  /** Round trip: the literal lines decode back to exactly the file's bytes. */
  lemma LiteralRoundTrip(data: seq<byte>)
    ensures DecodeLines(LiteralLines(data)) == Some(data)
  {
    DecodeQuoted(Chunks(data));
    FlattenChunks(data);
  }

  /**
   * ceil(n/16) lines; empty data gives none; every line but the last carries
   * 16 escapes; the last carries the remaining 1 to 16 bytes.
   */
  lemma LiteralLinesShape(data: seq<byte>)
    ensures |LiteralLines(data)| == (|data| + LineWidth - 1) / LineWidth
    ensures LiteralLines(data) == [] <==> data == []
    ensures forall k :: 0 <= k < |LiteralLines(data)| - 1 ==>
      LiteralLines(data)[k] == LineOf(data[LineWidth * k .. LineWidth * k + LineWidth])
    ensures data != [] ==>
      var last := |LiteralLines(data)| - 1;
      0 < |data| - LineWidth * last <= LineWidth &&
      LiteralLines(data)[last] == LineOf(data[LineWidth * last ..])
  {
    var lines := LiteralLines(data);
    ChunksCount(data);
    forall k | 0 <= k < |lines| - 1
      ensures lines[k] == LineOf(data[LineWidth * k .. LineWidth * k + LineWidth])
    {
      ChunkAt(data, k);
    }
    if data != [] {
      var last := |lines| - 1;
      ChunkAt(data, last);
      assert data[LineWidth * last .. |data|] == data[LineWidth * last ..];
    }
  }

  // ----- The length constant -----

  function DecimalDigit(d: nat): (c: char)
    requires d < 10
    ensures '0' <= c <= '9'
  {
    ('0' as int + d) as char
  }

  predicate AllDigits(s: string) {
    forall i :: 0 <= i < |s| ==> '0' <= s[i] <= '9'
  }

  /** `str(n)` for a natural number: decimal digits without leading zeros. */
  function Decimal(n: nat): (s: string)
    ensures |s| >= 1 && AllDigits(s)
    ensures s[0] == '0' ==> n == 0 && s == "0"
  {
    if n < 10 then [DecimalDigit(n)] else Decimal(n / 10) + [DecimalDigit(n % 10)]
  }

  function ParseDecimal(s: string): nat
    requires AllDigits(s)
  {
    if s == [] then 0 else ParseDecimal(s[..|s| - 1]) * 10 + (s[|s| - 1] as int - '0' as int)
  }

  lemma {:induction false} DecimalRoundTrip(n: nat)
    ensures ParseDecimal(Decimal(n)) == n
  {
    if n >= 10 {
      var s := Decimal(n);
      assert s[..|s| - 1] == Decimal(n / 10);
      DecimalRoundTrip(n / 10);
    }
  }

  function LengthPrefix(arrayName: string): string {
    "const unsigned int " + arrayName + "_len = "
  }

  /** `const unsigned int <name>_len = <n>;` and a blank line. */
  function LengthConstant(arrayName: string, n: nat): string {
    LengthPrefix(arrayName) + Decimal(n) + ";\n\n"
  }

  /** The value a length-constant line declares for `arrayName`, if it is one. */
  function DeclaredLength(line: string, arrayName: string): Option<nat> {
    var pre := LengthPrefix(arrayName);
    if |line| >= |pre| + 3 && line[..|pre|] == pre && line[|line| - 3..] == ";\n\n"
       && AllDigits(line[|pre|..|line| - 3])
    then Some(ParseDecimal(line[|pre|..|line| - 3]))
    else None
  }

  lemma LengthConstantRoundTrip(arrayName: string, n: nat)
    ensures DeclaredLength(LengthConstant(arrayName, n), arrayName) == Some(n)
  {
    var line := LengthConstant(arrayName, n);
    var pre := LengthPrefix(arrayName);
    assert line[..|pre|] == pre;
    assert line[|pre|..|line| - 3] == Decimal(n);
    DecimalRoundTrip(n);
  }

  // ----- The whole definition -----

  function FileComment(filePath: string): string {
    "// File: " + filePath + "\n"
  }

  function ArrayHeader(arrayName: string): string {
    "const unsigned char " + arrayName + "[] = \n"
  }

  /** Every chunk `file_to_c_array` writes for one file, in order. */
  function ArrayDefinition(filePath: string, arrayName: string, data: seq<byte>): seq<string> {
    [FileComment(filePath), ArrayHeader(arrayName)] + LiteralLines(data) + [";\n", LengthConstant(arrayName, |data|)]
  }

  /**
   * A definition is two header lines, the literal lines, `;` and the length
   * constant; the literal decodes to the data and the constant declares its length.
   */
  lemma ArrayDefinitionRoundTrip(filePath: string, arrayName: string, data: seq<byte>)
    ensures var d := ArrayDefinition(filePath, arrayName, data);
      |d| == 4 + (|data| + LineWidth - 1) / LineWidth &&
      d[0] == FileComment(filePath) && d[1] == ArrayHeader(arrayName) && d[|d| - 2] == ";\n" &&
      DecodeLines(d[2..|d| - 2]) == Some(data) &&
      DeclaredLength(d[|d| - 1], arrayName) == Some(|data|)
  {
    var d := ArrayDefinition(filePath, arrayName, data);
    LiteralLinesShape(data);
    assert d[2..|d| - 2] == LiteralLines(data);
    LiteralRoundTrip(data);
    LengthConstantRoundTrip(arrayName, |data|);
  }

  /** A definition's array has an initializer: at least one literal line stands between `= ` and `;`. */
  predicate HasInitializer(lines: seq<string>) {
    lines != []
  }

  /**
   * As written, an empty file gets no literal line at all, so the C text is
   * `const unsigned char X[] = ` followed by `;`: an initializer with nothing in it.
   */
  lemma EmptyFileDefinition(filePath: string, arrayName: string)
    ensures ArrayDefinition(filePath, arrayName, []) ==
      [FileComment(filePath), ArrayHeader(arrayName), ";\n", LengthConstant(arrayName, 0)]
    ensures !HasInitializer(LiteralLines([]))
  {
    assert Chunks([]) == [];
  }

  /** The evidently intended literal: an empty file gets the empty string literal `""`. */
  function CorrectedLiteralLines(data: seq<byte>): (lines: seq<string>)
    ensures HasInitializer(lines)
  {
    if data == [] then [LineOf([])] else LiteralLines(data)
  }

  /** The corrected literal decodes to the data for every file, the empty one included, and differs only for it. */
  lemma CorrectedLiteralRoundTrip(data: seq<byte>)
    ensures DecodeLines(CorrectedLiteralLines(data)) == Some(data)
    ensures CorrectedLiteralLines([]) == ["\"\"\n"]
    ensures data != [] ==> CorrectedLiteralLines(data) == LiteralLines(data)
  {
    assert Escapes([]) == "";
    assert LineOf([]) == "\"\"\n";
    if data == [] {
      var none: seq<byte> := [];
      DecodeLineOf(none);
      assert [LineOf(none)][1..] == [];
      assert none + none == none;
      assert CorrectedLiteralLines(data) == [LineOf(none)];
    } else {
      LiteralRoundTrip(data);
    }
  }

  /** The full-line boundary the accumulator restarts at: byte `i` closes a line exactly when `i + 1` reaches `q + 16`. */
  lemma LineBoundary(q: nat, i: nat)
    requires q % LineWidth == 0 && q <= i < q + LineWidth
    ensures (i + 1) % LineWidth == 0 <==> i + 1 == q + LineWidth
  {
    assert (i + 1) % LineWidth == (i + 1 - q) % LineWidth;
  }

  /** Adding byte `i` to the accumulator extends its escapes by one. */
  lemma AccumulateStep(data: seq<byte>, q: nat, i: nat, line: string)
    requires q <= i < |data| && line == "\"" + Escapes(data[q..i])
    ensures line + Escape(data[i]) == "\"" + Escapes(data[q..i + 1])
  {
    EscapesSnoc(data[q..i], data[i]);
    assert data[q..i] + [data[i]] == data[q..i + 1];
  }

  /** Writing the accumulated line after whole lines gives the literal lines of the longer prefix. */
  lemma FlushStep(data: seq<byte>, q: nat, j: nat, line: string, start: seq<string>, before: seq<string>)
    requires q % LineWidth == 0 && q < j <= |data| && j - q <= LineWidth
    requires line == "\"" + Escapes(data[q..j])
    requires before == start + LiteralLines(data[..q])
    ensures before + [line + "\"\n"] == start + LiteralLines(data[..j])
  {
    LiteralLinesSnoc(data[..q], data[q..j]);
    assert data[..q] + data[q..j] == data[..j];
  }

  /**
   * `file_to_c_array`'s loop: appends each byte's escape to `line`, writes the line
   * out after every sixteenth byte, and flushes a non-empty remainder.
   */
  method WriteLiteralLines(f: Writer, data: seq<byte>)
    modifies f
    ensures f.written == old(f.written) + LiteralLines(data)
  {
    ghost var start := f.written;
    ghost var q := 0;  // bytes already written out in full lines
    var line := "\"";
    for i := 0 to |data|
      invariant q <= i < q + LineWidth && q % LineWidth == 0
      invariant f.written == start + LiteralLines(data[..q])
      invariant line == "\"" + Escapes(data[q..i])
    {
      AccumulateStep(data, q, i, line);
      line := line + Escape(data[i]);
      LineBoundary(q, i);
      if (i + 1) % LineWidth == 0 {
        FlushStep(data, q, i + 1, line, start, f.written);
        f.Write(line + "\"\n");
        line := "\"";
        q := i + 1;
      }
    }
    if line != "\"" {
      FlushStep(data, q, |data|, line, start, f.written);
      f.Write(line + "\"\n");
    }
    assert data[..|data|] == data;
  }

  /** Writes one file's array definition to `f`: header, literal lines, terminator and length constant. */
  method FileToCArray(f: Writer, filePath: string, arrayName: string, data: seq<byte>)
    modifies f
    ensures f.written == old(f.written) + ArrayDefinition(filePath, arrayName, data)
  {
    f.Write(FileComment(filePath));
    f.Write(ArrayHeader(arrayName));
    WriteLiteralLines(f, data);
    f.Write(";\n");
    f.Write(LengthConstant(arrayName, |data|));
  }
}
