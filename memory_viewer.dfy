/**
 * The memory viewer: a hex dump like the printer's that remembers, per
 * address, the byte it showed last time and highlights every cell whose
 * byte has changed since. Memory is a byte sequence and an address is an
 * offset into it; the object copy the viewer holds and the raw-byte view of
 * it are not modelled, so the bytes to show are passed in.
 */
module MemoryViewer {
  import opened MemoryPrinter

  /** `_get_needed_display_lines`: the viewer's own copy of the line count, equal to the printer's. */
  function NeededDisplayLines(size: nat, width: nat): (lines: nat)
    requires width > 0
    ensures lines == DisplayLines(size, width)
    ensures lines * width >= size && lines * width < size + width
  {
    var lines := size / width;
    if size % width != 0 then lines + 1 else lines
  }

  /**
   * The one-line shortcut `(size * width - 1) / width` suggested beside
   * `_get_needed_display_lines` is `size - 1`, not the line count: for 24
   * bytes at 16 per line it is 23, where two lines are needed.
   */
  lemma ShortcutIsNotLineCount(size: nat, width: nat)
    requires size > 0 && width > 0
    ensures (size * width - 1) / width == size - 1
    ensures (24 * 16 - 1) / 16 == 23 && NeededDisplayLines(24, 16) == 2
  {
    var n := size * width - 1;
    assert n == (size - 1) * width + (width - 1);
    var q, r := n / width, n % width;
    assert (q - (size - 1)) * width == (width - 1) - r;
    MulSmall(q - (size - 1), width);
  }

  /** The evidently intended shortcut, `(size + width - 1) / width`, is the line count. */
  lemma CorrectedShortcut(size: nat, width: nat)
    requires width > 0
    ensures (size + width - 1) / width == NeededDisplayLines(size, width)
  {
    var n := size + width - 1;
    var q, r := n / width, n % width;
    var d := NeededDisplayLines(size, width);
    assert (q - d) * width == (n - d * width) - r;
    MulSmall(q - d, width);
  }

  /** A hex cell: `--` past the end of the object, or a byte, highlighted or not. */
  datatype HexCell = Blank | Hex(value: byte, highlighted: bool)

  /** A character cell: the shown character, highlighted or not. */
  datatype CharCell = CharCell(shown: char, highlighted: bool)

  datatype ViewLine = ViewLine(hex: seq<HexCell>, chars: seq<CharCell>)

  /** The address was shown before, with a different byte. */
  predicate Changed(tracked: map<nat, byte>, address: nat, b: byte) {
    address in tracked && tracked[address] != b
  }

  /** Hex cell `i` of line `lineNumber`, whose bytes start at offset `at`. */
  function HexCellAt(tracked: map<nat, byte>, memory: seq<byte>, at: nat, size: nat, lineNumber: nat, width: nat, i: nat): (cell: HexCell)
    requires at + i < |memory|
    ensures cell.Blank? <==> lineNumber * width + i >= size
    ensures cell.Hex? ==> cell.value == memory[at + i]
    ensures cell.Hex? ==> (cell.highlighted <==> at + i in tracked && tracked[at + i] != memory[at + i])
  {
    if lineNumber * width + i >= size then Blank
    else Hex(memory[at + i], Changed(tracked, at + i, memory[at + i]))
  }

  /** Character cell `i` of the line whose bytes start at offset `at`; it has no end-of-object test. */
  function CharCellAt(tracked: map<nat, byte>, memory: seq<byte>, at: nat, i: nat): (cell: CharCell)
    requires at + i < |memory|
    ensures 33 <= cell.shown as int <= 126
    ensures cell.shown == (memory[at + i] as int) as char <==> Printable(memory[at + i])
    ensures cell.highlighted <==> at + i in tracked && tracked[at + i] != memory[at + i]
  {
    CharViewShowsByte(memory[at + i]);
    CharCell(CharView(memory[at + i]), Changed(tracked, at + i, memory[at + i]))
  }

  /** The line the viewer shows, given what it recorded before the line was drawn. */
  function LineView(bytes: map<nat, byte>, chars: map<nat, byte>, memory: seq<byte>, at: nat, size: nat, lineNumber: nat, width: nat): (line: ViewLine)
    requires at + width <= |memory|
    ensures |line.hex| == width && |line.chars| == width
  {
    ViewLine(seq(width, i requires 0 <= i < width => HexCellAt(bytes, memory, at, size, lineNumber, width, i)),
             seq(width, i requires 0 <= i < width => CharCellAt(chars, memory, at, i)))
  }

  /** The bytes the first `n` hex cells of a line record: only cells before the end of the object. */
  function HexSeen(memory: seq<byte>, at: nat, size: nat, lineNumber: nat, width: nat, n: nat): (seen: map<nat, byte>)
    requires at + n <= |memory|
    ensures forall a :: a in seen <==> at <= a < at + n && lineNumber * width + (a - at) < size
    ensures forall a :: a in seen ==> seen[a] == memory[a]
  {
    map a | at <= a < at + n && lineNumber * width + (a - at) < size :: memory[a]
  }

  /** The bytes the first `n` character cells of a line record: all of them. */
  function CharSeen(memory: seq<byte>, at: nat, n: nat): (seen: map<nat, byte>)
    requires at + n <= |memory|
    ensures forall a :: a in seen <==> at <= a < at + n
    ensures forall a :: a in seen ==> seen[a] == memory[a]
  {
    map a | at <= a < at + n :: memory[a]
  }

  /** Every address below `n`, with its byte. */
  function Snapshot(memory: seq<byte>, n: nat): map<nat, byte>
    requires n <= |memory|
  {
    map a | 0 <= a < n :: memory[a]
  }

  /** The first `n` lines of a render that started from the recorded maps `bytes` and `chars`. */
  function ViewDump(bytes: map<nat, byte>, chars: map<nat, byte>, memory: seq<byte>, size: nat, n: nat, width: nat): (lines: seq<ViewLine>)
    requires n * width <= |memory|
    ensures |lines| == n
  {
    if n == 0 then []
    else
      assert (n - 1) * width + width == n * width;
      ViewDump(bytes, chars, memory, size, n - 1, width) + [LineView(bytes, chars, memory, (n - 1) * width, size, n - 1, width)]
  }

  /** Line `k` of a render is drawn at offset `k * width` against the maps recorded before the render. */
  lemma {:induction false} ViewDumpLine(bytes: map<nat, byte>, chars: map<nat, byte>, memory: seq<byte>, size: nat, n: nat, width: nat, k: nat)
    requires n * width <= |memory| && k < n
    ensures k * width + width <= |memory|
    ensures ViewDump(bytes, chars, memory, size, n, width)[k] == LineView(bytes, chars, memory, k * width, size, k, width)
  {
    assert (n - 1) * width + width == n * width;
    if k < n - 1 {
      ViewDumpLine(bytes, chars, memory, size, n - 1, width, k);
    }
  }

  /** Two recorded maps that agree on the addresses `at .. at + width` draw the same line there. */
  predicate AgreeOn(t1: map<nat, byte>, t2: map<nat, byte>, lo: nat, hi: nat) {
    forall a :: lo <= a < hi ==> (a in t1 <==> a in t2) && (a in t1 ==> t1[a] == t2[a])
  }

  lemma LineViewLocal(b1: map<nat, byte>, c1: map<nat, byte>, b2: map<nat, byte>, c2: map<nat, byte>,
                      memory: seq<byte>, at: nat, size: nat, lineNumber: nat, width: nat)
    requires at + width <= |memory|
    requires AgreeOn(b1, b2, at, at + width) && AgreeOn(c1, c2, at, at + width)
    ensures LineView(b1, c1, memory, at, size, lineNumber, width) == LineView(b2, c2, memory, at, size, lineNumber, width)
  {
    var l1 := LineView(b1, c1, memory, at, size, lineNumber, width);
    var l2 := LineView(b2, c2, memory, at, size, lineNumber, width);
    forall i | 0 <= i < width
      ensures l1.hex[i] == l2.hex[i] && l1.chars[i] == l2.chars[i]
    {
      assert Changed(b1, at + i, memory[at + i]) == Changed(b2, at + i, memory[at + i]);
      assert Changed(c1, at + i, memory[at + i]) == Changed(c2, at + i, memory[at + i]);
    }
  }

  /**
   * The per-cell rule: a cell past the end of the object is `--` and
   * records nothing; any other hex cell shows its byte, is highlighted
   * exactly when its address was recorded with a different byte (so never
   * on first sight), and then records the byte. Character cells follow the
   * same rule with no end-of-object test. Addresses outside the line keep
   * what they had.
   */
  lemma CellRule(bytes: map<nat, byte>, chars: map<nat, byte>, memory: seq<byte>, at: nat, size: nat, lineNumber: nat, width: nat, i: nat)
    requires at + width <= |memory| && i < width
    ensures var cell := LineView(bytes, chars, memory, at, size, lineNumber, width).hex[i];
      var after := bytes + HexSeen(memory, at, size, lineNumber, width, width);
      && (cell.Blank? <==> lineNumber * width + i >= size)
      && (cell.Blank? ==> (at + i in after <==> at + i in bytes) && (at + i in bytes ==> after[at + i] == bytes[at + i]))
      && (cell.Hex? ==> cell.value == memory[at + i] && after[at + i] == memory[at + i])
      && (cell.Hex? ==> (cell.highlighted <==> at + i in bytes && bytes[at + i] != memory[at + i]))
      && (at + i !in bytes ==> !(cell.Hex? && cell.highlighted))
    ensures var cell := LineView(bytes, chars, memory, at, size, lineNumber, width).chars[i];
      var after := chars + CharSeen(memory, at, width);
      && cell.shown == CharView(memory[at + i]) && after[at + i] == memory[at + i]
      && (cell.highlighted <==> at + i in chars && chars[at + i] != memory[at + i])
    ensures AgreeOn(bytes, bytes + HexSeen(memory, at, size, lineNumber, width, width), 0, at)
    ensures AgreeOn(chars, chars + CharSeen(memory, at, width), 0, at)
  {
  }

  /**
   * Recording a line in order, one cell at a time: an in-range hex cell adds
   * its own address, which no earlier cell of the line recorded.
   */
  lemma HexSeenStep(tracked: map<nat, byte>, memory: seq<byte>, at: nat, size: nat, lineNumber: nat, width: nat, i: nat, address: nat)
    requires address == at + i < |memory|
    ensures var t := tracked + HexSeen(memory, at, size, lineNumber, width, i);
      && (address in t <==> address in tracked) && (address in tracked ==> t[address] == tracked[address])
      && (lineNumber * width + i < size ==> tracked + HexSeen(memory, at, size, lineNumber, width, i + 1) == t[address := memory[address]])
      && (lineNumber * width + i >= size ==> tracked + HexSeen(memory, at, size, lineNumber, width, i + 1) == t)
  {
  }

  lemma CharSeenStep(tracked: map<nat, byte>, memory: seq<byte>, at: nat, i: nat, address: nat)
    requires address == at + i < |memory|
    ensures var t := tracked + CharSeen(memory, at, i);
      && (address in t <==> address in tracked) && (address in tracked ==> t[address] == tracked[address])
      && tracked + CharSeen(memory, at, i + 1) == t[address := memory[address]]
  {
  }

  function Min(a: nat, b: nat): nat {
    if a <= b then a else b
  }

  /**
   * One line of a render, at offset `at == k * width`: the maps recorded so
   * far cover only addresses below `at`, so the line is drawn as against the
   * maps from before the render, and recording it extends both snapshots by
   * one line.
   */
  lemma RenderStep(b0: map<nat, byte>, c0: map<nat, byte>, memory: seq<byte>, size: nat, k: nat, width: nat, at: nat, next: nat)
    requires at == k * width && next == at + width <= |memory| && size <= |memory|
    ensures LineView(b0 + Snapshot(memory, Min(size, at)), c0 + Snapshot(memory, at), memory, at, size, k, width)
         == LineView(b0, c0, memory, at, size, k, width)
    ensures b0 + Snapshot(memory, Min(size, at)) + HexSeen(memory, at, size, k, width, width)
         == b0 + Snapshot(memory, Min(size, next))
    ensures c0 + Snapshot(memory, at) + CharSeen(memory, at, width) == c0 + Snapshot(memory, next)
  {
    var b, c := b0 + Snapshot(memory, Min(size, at)), c0 + Snapshot(memory, at);
    LineViewLocal(b, c, b0, c0, memory, at, size, k, width);
    HexSnapshotStep(b0, memory, size, k, width, at, next);
    CharSnapshotStep(c0, memory, at, width, next);
  }

  lemma HexSnapshotStep(b0: map<nat, byte>, memory: seq<byte>, size: nat, k: nat, width: nat, at: nat, next: nat)
    requires at == k * width && next == at + width <= |memory| && size <= |memory|
    ensures b0 + Snapshot(memory, Min(size, at)) + HexSeen(memory, at, size, k, width, width) == b0 + Snapshot(memory, Min(size, next))
  {
    var s1, s2 := Snapshot(memory, Min(size, at)) + HexSeen(memory, at, size, k, width, width), Snapshot(memory, Min(size, next));
    assert s1.Keys == s2.Keys;
    assert s1 == s2;
  }

  lemma CharSnapshotStep(c0: map<nat, byte>, memory: seq<byte>, at: nat, width: nat, next: nat)
    requires next == at + width <= |memory|
    ensures c0 + Snapshot(memory, at) + CharSeen(memory, at, width) == c0 + Snapshot(memory, next)
  {
    var s1, s2 := Snapshot(memory, at) + CharSeen(memory, at, width), Snapshot(memory, next);
    assert s1.Keys == s2.Keys;
    assert s1 == s2;
  }

  /** No cell of the line is highlighted. */
  predicate NoHighlight(line: ViewLine) {
    && (forall i :: 0 <= i < |line.hex| ==> !(line.hex[i].Hex? && line.hex[i].highlighted))
    && (forall i :: 0 <= i < |line.chars| ==> !line.chars[i].highlighted)
  }

  predicate Unhighlighted(lines: seq<ViewLine>) {
    forall k :: 0 <= k < |lines| ==> NoHighlight(lines[k])
  }

  /** A line whose every drawn byte is recorded with its current value is drawn unhighlighted. */
  lemma LineUnhighlighted(bytes: map<nat, byte>, chars: map<nat, byte>, memory: seq<byte>, at: nat, size: nat, lineNumber: nat, width: nat)
    requires at + width <= |memory|
    requires forall a :: at <= a < at + width && lineNumber * width + (a - at) < size ==> a in bytes && bytes[a] == memory[a]
    requires forall a :: at <= a < at + width ==> a in chars && chars[a] == memory[a]
    ensures NoHighlight(LineView(bytes, chars, memory, at, size, lineNumber, width))
  {
    var line := LineView(bytes, chars, memory, at, size, lineNumber, width);
    forall i | 0 <= i < width
      ensures !(line.hex[i].Hex? && line.hex[i].highlighted) && !line.chars[i].highlighted
    {
      var a := at + i;
      assert a in chars && chars[a] == memory[a];
      if lineNumber * width + i < size {
        assert a in bytes && bytes[a] == memory[a];
      }
    }
  }

  /**
   * Rendering the same memory twice in a row highlights nothing the second
   * time: the first render records every byte before `size` and every
   * character it drew, each with the value the second render sees.
   */
  lemma RerenderHighlightsNothing(bytes: map<nat, byte>, chars: map<nat, byte>, memory: seq<byte>, size: nat, width: nat)
    requires width > 0 && DisplayLines(size, width) * width <= |memory|
    ensures var n := DisplayLines(size, width);
      Unhighlighted(ViewDump(bytes + Snapshot(memory, size), chars + Snapshot(memory, n * width), memory, size, n, width))
  {
    var n := DisplayLines(size, width);
    var total := n * width;
    var b, c := bytes + Snapshot(memory, size), chars + Snapshot(memory, total);
    var lines := ViewDump(b, c, memory, size, n, width);
    forall k | 0 <= k < n
      ensures NoHighlight(lines[k])
    {
      MulLeq(0, k, width);
      RerenderLine(bytes, chars, memory, size, n, width, total, k, k * width);
    }
  }

  /** Line `k` of the second render, at offset `at == k * width`, is unhighlighted. */
  lemma RerenderLine(bytes: map<nat, byte>, chars: map<nat, byte>, memory: seq<byte>, size: nat, n: nat, width: nat,
                     total: nat, k: nat, at: nat)
    requires total == n * width && size <= total <= |memory| && k < n && at == k * width
    ensures NoHighlight(ViewDump(bytes + Snapshot(memory, size), chars + Snapshot(memory, total), memory, size, n, width)[k])
  {
    var b, c := bytes + Snapshot(memory, size), chars + Snapshot(memory, total);
    ViewDumpLine(b, c, memory, size, n, width, k);
    NextLine(k, width, n, at, at + width);
    LineUnhighlighted(b, c, memory, at, size, k, width);
  }

  /** A fresh viewer has recorded nothing, so its first render highlights nothing. */
  lemma FirstRenderHighlightsNothing(memory: seq<byte>, size: nat, width: nat)
    requires width > 0 && DisplayLines(size, width) * width <= |memory|
    ensures Unhighlighted(ViewDump(map[], map[], memory, size, DisplayLines(size, width), width))
  {
    var n := DisplayLines(size, width);
    var lines := ViewDump(map[], map[], memory, size, n, width);
    forall k | 0 <= k < n
      ensures NoHighlight(lines[k])
    {
      ViewDumpLine(map[], map[], memory, size, n, width, k);
    }
  }

  /** `MemoryViewer`: the byte and character last shown at each address. */
  class Viewer {
    var trackedBytes: map<nat, byte>
    var trackedChars: map<nat, byte>

    constructor ()
      ensures trackedBytes == map[] && trackedChars == map[]
    {
      trackedBytes, trackedChars := map[], map[];
    }

    /**
     * `_print_memory_line`: the hex loop, which skips positions past `size`,
     * then the character loop, which does not; each cell is decided against
     * the maps and then recorded. The bytes of the line start at offset `at`,
     * and the character loop reads `width` bytes whatever `size` is, so the
     * buffer must hold them.
     */
    method PrintMemoryLine(memory: seq<byte>, at: nat, size: nat, lineNumber: nat, width: nat) returns (line: ViewLine)
      requires at + width <= |memory|
      modifies this
      ensures line == LineView(old(trackedBytes), old(trackedChars), memory, at, size, lineNumber, width)
      ensures trackedBytes == old(trackedBytes) + HexSeen(memory, at, size, lineNumber, width, width)
      ensures trackedChars == old(trackedChars) + CharSeen(memory, at, width)
    {
      var hex := HexColumn(memory, at, size, lineNumber, width);
      var chars := CharColumn(memory, at, width);
      line := ViewLine(hex, chars);
    }

    /** The first loop of `_print_memory_line`: the hex cells, recording each in-range byte. */
    method HexColumn(memory: seq<byte>, at: nat, size: nat, lineNumber: nat, width: nat) returns (hex: seq<HexCell>)
      requires at + width <= |memory|
      modifies this
      ensures hex == LineView(old(trackedBytes), trackedChars, memory, at, size, lineNumber, width).hex
      ensures trackedBytes == old(trackedBytes) + HexSeen(memory, at, size, lineNumber, width, width)
      ensures trackedChars == old(trackedChars)
    {
      hex := [];
      for i := 0 to width
        invariant |hex| == i
        invariant trackedBytes == old(trackedBytes) + HexSeen(memory, at, size, lineNumber, width, i)
        invariant forall j :: 0 <= j < i ==> hex[j] == HexCellAt(old(trackedBytes), memory, at, size, lineNumber, width, j)
        invariant trackedChars == old(trackedChars)
      {
        var bytePos := lineNumber * width + i;
        var address := at + i;
        HexSeenStep(old(trackedBytes), memory, at, size, lineNumber, width, i, address);
        if bytePos >= size {
          hex := hex + [Blank];
        } else {
          var highlighted := address in trackedBytes && trackedBytes[address] != memory[address];
          hex := hex + [Hex(memory[address], highlighted)];
          trackedBytes := trackedBytes[address := memory[address]];
        }
      }
    }

    /** The second loop of `_print_memory_line`: the character cells, recording every byte. */
    method CharColumn(memory: seq<byte>, at: nat, width: nat) returns (chars: seq<CharCell>)
      requires at + width <= |memory|
      modifies this
      ensures forall i :: 0 <= i < width ==> i < |chars| && chars[i] == CharCellAt(old(trackedChars), memory, at, i)
      ensures |chars| == width
      ensures trackedChars == old(trackedChars) + CharSeen(memory, at, width)
      ensures trackedBytes == old(trackedBytes)
    {
      chars := [];
      for i := 0 to width
        invariant |chars| == i
        invariant trackedChars == old(trackedChars) + CharSeen(memory, at, i)
        invariant forall j :: 0 <= j < i ==> chars[j] == CharCellAt(old(trackedChars), memory, at, j)
        invariant trackedBytes == old(trackedBytes)
      {
        var address := at + i;
        CharSeenStep(old(trackedChars), memory, at, i, address);
        var highlighted := address in trackedChars && trackedChars[address] != memory[address];
        chars := chars + [CharCell(CharView(memory[address]), highlighted)];
        trackedChars := trackedChars[address := memory[address]];
      }
    }

    /**
     * `_print_memory`: one line per needed line, the base offset advancing
     * by `width` after each. Every line is drawn against the maps as they
     * were before the render (no address is drawn twice), and afterwards the
     * maps hold every byte before `size` and every drawn character.
     */
    method PrintMemory(memory: seq<byte>, size: nat, width: nat) returns (lines: seq<ViewLine>)
      requires width > 0 && DisplayLines(size, width) * width <= |memory|
      modifies this
      ensures lines == ViewDump(old(trackedBytes), old(trackedChars), memory, size, DisplayLines(size, width), width)
      ensures trackedBytes == old(trackedBytes) + Snapshot(memory, size)
      ensures trackedChars == old(trackedChars) + Snapshot(memory, DisplayLines(size, width) * width)
    {
      var displayLines := NeededDisplayLines(size, width);
      var at: nat := 0;
      lines := [];
      for lineNumber := 0 to displayLines
        invariant at == lineNumber * width && at <= |memory|
        invariant lines == ViewDump(old(trackedBytes), old(trackedChars), memory, size, lineNumber, width)
        invariant trackedBytes == old(trackedBytes) + Snapshot(memory, Min(size, at))
        invariant trackedChars == old(trackedChars) + Snapshot(memory, at)
      {
        MulLeq(lineNumber + 1, displayLines, width);
        assert (lineNumber + 1) * width == at + width;
        var next := at + width;
        RenderStep(old(trackedBytes), old(trackedChars), memory, size, lineNumber, width, at, next);
        var line := PrintMemoryLine(memory, at, size, lineNumber, width);
        lines := lines + [line];
        at := next;
      }
    }

    /** `print`: a render of the observed object's bytes, 16 to a line; `memory` holds the object and what follows it. */
    method Print(memory: seq<byte>, size: nat) returns (lines: seq<ViewLine>)
      requires DisplayLines(size, DefaultWidth) * DefaultWidth <= |memory|
      modifies this
      ensures lines == ViewDump(old(trackedBytes), old(trackedChars), memory, size, DisplayLines(size, DefaultWidth), DefaultWidth)
      ensures trackedBytes == old(trackedBytes) + Snapshot(memory, size)
      ensures trackedChars == old(trackedChars) + Snapshot(memory, DisplayLines(size, DefaultWidth) * DefaultWidth)
    {
      lines := PrintMemory(memory, size, DefaultWidth);
    }
  }
}
