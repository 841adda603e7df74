/**
 * The memory printer: a hex dump of a byte buffer, `width` bytes per line,
 * each line showing the bytes as two upper-case hex digits and again as
 * characters, with every non-printable byte shown as '.'. The printed
 * address column and the colour escapes are output only and are not
 * modelled; a line is the list of its hex cells and its character column.
 */
module MemoryPrinter {

  newtype byte = x: int | 0 <= x < 256

  /** Bytes per line when the caller gives no width. */
  const DefaultWidth: nat := 16

  /** `get_needed_display_lines`: the number of lines needed for `size` bytes. */
  function DisplayLines(size: nat, width: nat): (lines: nat)
    requires width > 0
    ensures lines * width >= size
    ensures lines * width < size + width
  {
    var lines := size / width;
    if size % width != 0 then lines + 1 else lines
  }

  /** The line count is the ceiling of `size / width`: no other count has both bounds. */
  lemma DisplayLinesIsCeiling(size: nat, width: nat, n: nat)
    requires width > 0
    ensures (n * width >= size && n * width < size + width) <==> n == DisplayLines(size, width)
  {
    var d := DisplayLines(size, width);
    if n * width >= size && n * width < size + width {
      assert (d + 1) * width == d * width + width;
      assert (n + 1) * width == n * width + width;
      MulStrict(n, d + 1, width);
      MulStrict(d, n + 1, width);
    }
  }

  lemma MulLeq(a: nat, b: nat, c: nat)
    requires a <= b
    ensures a * c <= b * c
  {
  }

  lemma MulStrict(a: nat, b: nat, c: nat)
    requires a * c < b * c
    ensures a < b
  {
    if b <= a {
      MulLeq(b, a, c);
    }
  }

  /** An exact multiple needs exactly `size / width` lines. */
  lemma ExactMultipleLines(size: nat, width: nat)
    requires width > 0 && size % width == 0
    ensures DisplayLines(size, width) == size / width
  {
  }

  /** A partial last line adds one to `size / width`. */
  lemma PartialLineAddsOne(size: nat, width: nat)
    requires width > 0 && size % width != 0
    ensures DisplayLines(size, width) == size / width + 1
  {
  }

  /** An empty buffer prints no lines. */
  lemma EmptyNeedsNoLines(width: nat)
    requires width > 0
    ensures DisplayLines(0, width) == 0
  {
  }

  /** A multiple of `d` strictly between `-d` and `d` is zero. */
  lemma MulSmall(x: int, d: int)
    requires d > 0 && -d < x * d < d
    ensures x == 0
  {
    if x > 0 {
      MulLeq(1, x, d);
    }
  }

  /** Every byte before `size` lies on a printed line: byte `a` is column `a % width` of line `a / width`. */
  lemma EveryByteOnALine(size: nat, width: nat, a: nat)
    requires width > 0 && a < size
    ensures a / width < DisplayLines(size, width)
    ensures (a / width) * width + a % width == a
  {
    var k := a / width;
    var d := DisplayLines(size, width);
    assert k * width <= a;
    MulStrict(k, d, width);
  }

  /** Bytes 33 ..= 126 are shown as themselves; space (32) and DEL (127) are not. */
  predicate Printable(b: byte) {
    33 <= b <= 126
  }

  /** The character column's cell for one byte. */
  function CharView(b: byte): (c: char)
    ensures 33 <= c as int <= 126
  {
    if Printable(b) then (b as int) as char else '.'
  }

  /** A byte is shown as itself exactly when it is printable; '.' (46) is the one byte whose placeholder is also itself. */
  lemma CharViewShowsByte(b: byte)
    ensures CharView(b) == (b as int) as char <==> Printable(b)
    ensures !Printable(b) ==> CharView(b) == '.'
    ensures CharView(b) == '.' <==> !Printable(b) || b == 46
  {
  }

  const HexDigits: string := "0123456789ABCDEF"

  /** `%02X`: two upper-case hex digits, high nibble first. */
  function Hex2(b: byte): (s: string)
    ensures |s| == 2 && s[0] in HexDigits && s[1] in HexDigits
  {
    [HexDigits[b as int / 16], HexDigits[b as int % 16]]
  }

  /** The value of one upper-case hex digit. */
  function DigitValue(c: char): (v: int)
    ensures c in HexDigits ==> 0 <= v < 16 && HexDigits[v] == c
    ensures c !in HexDigits ==> v == -1
  {
    if '0' <= c <= '9' then c as int - '0' as int
    else if 'A' <= c <= 'F' then c as int - 'A' as int + 10
    else -1
  }

  /** Reads a two-digit hex cell back. */
  function ParseHex2(s: string): (r: int)
    requires |s| == 2
    ensures s[0] in HexDigits && s[1] in HexDigits ==> 0 <= r < 256
  {
    if s[0] in HexDigits && s[1] in HexDigits then DigitValue(s[0]) * 16 + DigitValue(s[1]) else -1
  }

  /** The hex cell determines its byte: reading it back gives the byte, so distinct bytes print differently. */
  lemma Hex2RoundTrip(b: byte)
    ensures ParseHex2(Hex2(b)) == b as int
  {
    var s := Hex2(b);
    var hi, lo := b as int / 16, b as int % 16;
    assert DigitValue(s[0]) == hi by { assert HexDigits[hi] == s[0]; DigitIndex(hi); }
    assert DigitValue(s[1]) == lo by { assert HexDigits[lo] == s[1]; DigitIndex(lo); }
  }

  lemma DigitIndex(v: int)
    requires 0 <= v < 16
    ensures DigitValue(HexDigits[v]) == v
  {
  }

  lemma Hex2Injective(a: byte, b: byte)
    ensures Hex2(a) == Hex2(b) ==> a == b
  {
    Hex2RoundTrip(a);
    Hex2RoundTrip(b);
  }

  /** One printed line: `width` hex cells and `width` characters. */
  datatype Line = Line(hex: seq<string>, chars: string)

  /** The line that shows bytes `at .. at + width` of `memory`. */
  function LineAt(memory: seq<byte>, at: nat, width: nat): (line: Line)
    requires at + width <= |memory|
    ensures |line.hex| == width && |line.chars| == width
  {
    var bytes := memory[at..at + width];
    Line(seq(width, i requires 0 <= i < width => Hex2(bytes[i])),
         seq(width, i requires 0 <= i < width => CharView(bytes[i])))
  }

  /**
   * `print_memory_line`: the hex loop, then the character loop, each over
   * exactly `width` bytes. The source reads `width` bytes whatever the
   * buffer's size, so the buffer must hold them.
   */
  method PrintMemoryLine(memory: seq<byte>, at: nat, width: nat) returns (line: Line)
    requires at + width <= |memory|
    ensures line == LineAt(memory, at, width)
  {
    var hex: seq<string> := [];
    for i := 0 to width
      invariant |hex| == i
      invariant forall j :: 0 <= j < i ==> hex[j] == Hex2(memory[at + j])
    {
      hex := hex + [Hex2(memory[at + i])];
    }
    var chars: string := [];
    for i := 0 to width
      invariant |chars| == i
      invariant forall j :: 0 <= j < i ==> chars[j] == CharView(memory[at + j])
    {
      chars := chars + [CharView(memory[at + i])];
    }
    line := Line(hex, chars);
  }

  /** The first `n` lines of the dump of `memory`, line `k` starting at offset `k * width`. */
  function Dump(memory: seq<byte>, n: nat, width: nat): (lines: seq<Line>)
    requires n * width <= |memory|
    ensures |lines| == n
  {
    if n == 0 then []
    else
      assert (n - 1) * width + width == n * width;
      Dump(memory, n - 1, width) + [LineAt(memory, (n - 1) * width, width)]
  }

  /** The offset after line `k` is that of line `k + 1`, and it stays within the lines to print. */
  lemma NextLine(k: nat, width: nat, lines: nat, at: nat, next: nat)
    requires k < lines && at == k * width && next == at + width
    ensures (k + 1) * width == next <= lines * width
  {
    MulLeq(k + 1, lines, width);
  }

  /** One more line of a dump is the line at the next offset. */
  lemma DumpStep(memory: seq<byte>, n: nat, width: nat, at: nat, next: nat)
    requires at == n * width && next == at + width && (n + 1) * width == next <= |memory|
    ensures n * width <= |memory|
    ensures Dump(memory, n + 1, width) == Dump(memory, n, width) + [LineAt(memory, at, width)]
  {
  }

  /** Line `k` of a dump shows the `width` bytes from offset `k * width`. */
  lemma {:induction false} DumpLine(memory: seq<byte>, n: nat, width: nat, k: nat)
    requires n * width <= |memory| && k < n
    ensures k * width + width <= |memory|
    ensures Dump(memory, n, width)[k] == LineAt(memory, k * width, width)
  {
    assert (n - 1) * width + width == n * width;
    if k < n - 1 {
      DumpLine(memory, n - 1, width, k);
    }
  }

  /**
   * Every byte before `size` is shown in a full dump: column `c` of line `k`,
   * which starts at offset `at == k * width`, holds the hex cell of byte
   * `a == at + c`, which reads back as that byte, and its character. With
   * `EveryByteOnALine` this covers each byte `a` at line `a / width`, column
   * `a % width`.
   */
  lemma DumpShowsByte(memory: seq<byte>, size: nat, width: nat, k: nat, at: nat, c: nat, a: nat)
    requires width > 0 && DisplayLines(size, width) * width <= |memory|
    requires at == k * width && c < width && a == at + c && a < size
    ensures k < DisplayLines(size, width) && at + width <= |memory| && a < |memory|
    ensures Dump(memory, DisplayLines(size, width), width)[k] == LineAt(memory, at, width)
    ensures Dump(memory, DisplayLines(size, width), width)[k].hex[c] == Hex2(memory[a])
    ensures ParseHex2(Dump(memory, DisplayLines(size, width), width)[k].hex[c]) == memory[a] as int
    ensures Dump(memory, DisplayLines(size, width), width)[k].chars[c] == CharView(memory[a])
  {
    var d := DisplayLines(size, width);
    LineOfByte(size, width, k, c, a);
    DumpLine(memory, d, width, k);
    LineAtShows(memory, at, width, c, a);
  }

  /** Column `c` of the line from offset `at` shows byte `at + c`, in hex and as a character. */
  lemma LineAtShows(memory: seq<byte>, at: nat, width: nat, c: nat, a: nat)
    requires at + width <= |memory| && c < width && a == at + c
    ensures LineAt(memory, at, width).hex[c] == Hex2(memory[a])
    ensures ParseHex2(LineAt(memory, at, width).hex[c]) == memory[a] as int
    ensures LineAt(memory, at, width).chars[c] == CharView(memory[a])
  {
    var line := LineAt(memory, at, width);
    assert memory[at..at + width][c] == memory[a];
    assert line.hex[c] == Hex2(memory[a]);
    Hex2RoundTrip(memory[a]);
  }

  /** Byte `a == k * width + c` before `size` lies on one of the printed lines. */
  lemma LineOfByte(size: nat, width: nat, k: nat, c: nat, a: nat)
    requires width > 0 && c < width && a == k * width + c && a < size
    ensures k < DisplayLines(size, width)
  {
    MulStrict(k, DisplayLines(size, width), width);
  }

  /**
   * `print_memory`: one line per needed line, the base offset advancing by
   * `width` after each. The last line may run past `size`, so the buffer
   * must be padded to a whole number of lines.
   */
  method PrintMemory(memory: seq<byte>, size: nat, width: nat) returns (lines: seq<Line>)
    requires width > 0
    requires DisplayLines(size, width) * width <= |memory|
    ensures lines == Dump(memory, DisplayLines(size, width), width)
    ensures |lines| == DisplayLines(size, width)
  {
    var displayLines := DisplayLines(size, width);
    var at: nat := 0;
    lines := [];
    for k := 0 to displayLines
      invariant at == k * width && at <= |memory|
      invariant lines == Dump(memory, k, width)
    {
      var next := at + width;
      NextLine(k, width, displayLines, at, next);
      DumpStep(memory, k, width, at, next);
      var line := PrintMemoryLine(memory, at, width);
      lines := lines + [line];
      at := next;
    }
  }
}
