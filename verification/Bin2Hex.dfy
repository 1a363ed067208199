/**
  The converter `pk/freedom-bin2hex.py`: binary to rows of hexadecimal, rows to addressed lines of
  four words, and addressed lines back to one byte per line. A file is the sequence of its lines,
  each with its newline.
 */
module Bin2Hex {
  import opened Numerals

  type Byte = b: nat | b < 256

  datatype FileType = Mem | Hex

  // ---------- rows ----------

  function Zeros(n: nat): seq<Byte> {
    seq(n, _ => 0)
  }

  /** `grouper(data, n, fillvalue=0)`; with n = 0 there is no iterator to read from. */
  function Groups(data: seq<Byte>, n: nat): (rows: seq<seq<Byte>>)
    ensures forall i | 0 <= i < |rows| :: |rows[i]| == n
  {
    if n == 0 || data == [] then []
    else if |data| <= n then [data + Zeros(n - |data|)]
    else [data[..n]] + Groups(data[n..], n)
  }

  function Concat<T>(parts: seq<seq<T>>): seq<T> {
    if parts == [] then [] else parts[0] + Concat(parts[1..])
  }

  /** The bytes, with fewer than n zeros behind them. */
  ghost predicate IsPadded(data: seq<Byte>, n: nat, padded: seq<Byte>) {
    && |data| <= |padded| < |data| + n
    && padded[..|data|] == data
    && forall i | |data| <= i < |padded| :: padded[i] == 0
  }

  /** Grouping loses and moves no byte: the rows in order are the data, zero-padded to whole rows. */
  lemma {:induction false} GroupsCover(data: seq<Byte>, n: nat)
    requires n > 0
    ensures IsPadded(data, n, Concat(Groups(data, n)))
  {
    if |data| > n {
      var rows := Groups(data, n);
      GroupsCover(data[n..], n);
      assert rows[1..] == Groups(data[n..], n);
      PadMore(data, n, Concat(rows[1..]));
    } else if data != [] {
      ConcatOne(data + Zeros(n - |data|));
    }
  }

  lemma ConcatOne<T>(part: seq<T>)
    ensures Concat([part]) == part
  {
    assert [part][1..] == [];
  }

  lemma PadMore(data: seq<Byte>, n: nat, rest: seq<Byte>)
    requires 0 < n < |data| && IsPadded(data[n..], n, rest)
    ensures IsPadded(data, n, data[..n] + rest)
  {
    var padded := data[..n] + rest;
    assert padded[..|data|] == data[..n] + rest[..|data| - n] == data;
  }

  /** `'{:02x}'.format(b)`. */
  function ByteText(b: Byte): string {
    [DigitChar(b / 16), DigitChar(b % 16)]
  }

  /** `''.join('{:02x}'.format(b) for b in reversed(row))`. */
  function RowText(row: seq<Byte>): (s: string)
    ensures |s| == 2 * |row|
  {
    if row == [] then "" else RowText(row[1..]) + ByteText(row[0])
  }

  /** The k-th pair of characters. */
  function Pair(s: string, k: nat): string
    requires 2 * k + 2 <= |s|
  {
    s[2 * k..2 * k + 2]
  }

  lemma PairOfConcat(a: string, b: string, k: nat)
    requires |a| % 2 == 0 && 2 * k + 2 <= |a| + |b|
    ensures Pair(a + b, k) == if 2 * k < |a| then Pair(a, k) else Pair(b, k - |a| / 2)
  {
  }

  /** Pairs of a row stand in reverse order of its bytes. */
  lemma {:induction false} RowTextPair(row: seq<Byte>, k: nat)
    requires k < |row|
    ensures Pair(RowText(row), k) == ByteText(row[|row| - 1 - k])
  {
    PairOfConcat(RowText(row[1..]), ByteText(row[0]), k);
    if k < |row| - 1 {
      RowTextPair(row[1..], k);
    }
  }

  // ---------- lines ----------

  /** Python's `s[i:j]`. */
  function Slice(s: string, i: nat, j: nat): string
    requires i <= j
  {
    s[if i <= |s| then i else |s|..if j <= |s| then j else |s|]
  }

  /** `hex(n)[2:].zfill(8)`. */
  function Address(n: nat): string {
    PaddedNumber(n, 16, 8, '0')
  }

  function HexLine(address: string, row: string): string {
    "@" + address + " " + Slice(row, 24, 32) + " " + Slice(row, 16, 24)
    + " " + Slice(row, 8, 16) + " " + Slice(row, 0, 8) + "\n"
  }

  /** `write_line`. */
  function Line(output: FileType, row: string, n: nat): string {
    if output == Mem then row + "\n" else HexLine(Address(n), row)
  }

  /** Rows written one after the other, numbered from n. */
  function Lines(output: FileType, rows: seq<string>, n: nat): (lines: seq<string>)
    ensures |lines| == |rows|
  {
    if rows == [] then [] else [Line(output, rows[0], n)] + Lines(output, rows[1..], n + 1)
  }

  function RowTexts(rows: seq<seq<Byte>>): (texts: seq<string>)
    ensures |texts| == |rows|
  {
    if rows == [] then [] else [RowText(rows[0])] + RowTexts(rows[1..])
  }

  /** `convert` from a binary file. */
  function FromBin(bitWidth: nat, data: seq<Byte>, output: FileType): seq<string> {
    Lines(output, RowTexts(Groups(data, bitWidth / 8)), 0)
  }

  /** `line[0:32]` of every line. */
  function Heads(lines: seq<string>): (heads: seq<string>)
    ensures |heads| == |lines|
  {
    if lines == [] then [] else [Slice(lines[0], 0, 32)] + Heads(lines[1..])
  }

  /** `convert` from a mem file. */
  function FromMem(lines: seq<string>, output: FileType): seq<string> {
    Lines(output, Heads(lines), 0)
  }

  /** Writing to an open file appends. */
  class OutFile {
    var lines: seq<string>

    constructor ()
      ensures lines == []
    {
      lines := [];
    }

    method Write(s: string)
      modifies this
      ensures lines == old(lines) + [s]
    {
      lines := lines + [s];
    }
  }

  lemma Regroup<T>(a: seq<T>, b: seq<T>, c: seq<T>)
    ensures a + b + c == a + (b + c)
  {
  }

  lemma {:induction false} RowTextsAt(rows: seq<seq<Byte>>, i: nat)
    requires i < |rows|
    ensures RowTexts(rows)[i] == RowText(rows[i])
  {
    if i > 0 {
      RowTextsAt(rows[1..], i - 1);
    }
  }

  /** The binary branch of `convert`. */
  method ConvertBin(bitWidth: nat, data: seq<Byte>, outfile: OutFile, output: FileType)
    modifies outfile
    ensures outfile.lines == old(outfile.lines) + FromBin(bitWidth, data, output)
  {
    var rows := Groups(data, bitWidth / 8);
    var lineCount := 0;
    while lineCount < |rows|
      invariant 0 <= lineCount <= |rows|
      invariant outfile.lines + Lines(output, RowTexts(rows[lineCount..]), lineCount)
             == old(outfile.lines) + FromBin(bitWidth, data, output)
    {
      var line := Line(output, RowText(rows[lineCount]), lineCount);
      assert rows[lineCount..][1..] == rows[lineCount + 1..];
      Regroup(outfile.lines, [line], Lines(output, RowTexts(rows[lineCount + 1..]), lineCount + 1));
      outfile.Write(line);
      lineCount := lineCount + 1;
    }
  }

  /** The mem branch of `convert`. */
  method ConvertMem(lines: seq<string>, outfile: OutFile, output: FileType)
    modifies outfile
    ensures outfile.lines == old(outfile.lines) + FromMem(lines, output)
  {
    var lineCount := 0;
    while lineCount < |lines|
      invariant 0 <= lineCount <= |lines|
      invariant outfile.lines + Lines(output, Heads(lines[lineCount..]), lineCount)
             == old(outfile.lines) + FromMem(lines, output)
    {
      var line := Line(output, Slice(lines[lineCount], 0, 32), lineCount);
      assert lines[lineCount..][1..] == lines[lineCount + 1..];
      Regroup(outfile.lines, [line], Lines(output, Heads(lines[lineCount + 1..]), lineCount + 1));
      outfile.Write(line);
      lineCount := lineCount + 1;
    }
  }

  // ---------- bin to mem to hex ----------

  lemma LongRowKept(row: string, n: nat)
    requires |row| >= 32
    ensures Line(Hex, Slice(row + "\n", 0, 32), n) == Line(Hex, row, n)
  {
    var head := Slice(row + "\n", 0, 32);
    assert head == row[..32];
    assert Slice(head, 24, 32) == Slice(row, 24, 32) && Slice(head, 16, 24) == Slice(row, 16, 24);
    assert Slice(head, 8, 16) == Slice(row, 8, 16) && Slice(head, 0, 8) == Slice(row, 0, 8);
  }

  /** A short row keeps its newline, which makes the line longer. */
  lemma ShortRowLonger(row: string, n: nat)
    requires |row| < 32
    ensures |Line(Hex, Slice(row + "\n", 0, 32), n)| > |Line(Hex, row, n)|
  {
    assert Slice(row + "\n", 0, 32) == row + "\n";
  }

  lemma {:induction false} LongRowsKept(rows: seq<string>, n: nat)
    requires forall i | 0 <= i < |rows| :: |rows[i]| >= 32
    ensures Lines(Hex, Heads(Lines(Mem, rows, n)), n) == Lines(Hex, rows, n)
  {
    if rows != [] {
      LongRowKept(rows[0], n);
      HeadsFirst(rows, n);
      LongRowsKept(rows[1..], n + 1);
    }
  }

  lemma HeadsFirst(rows: seq<string>, n: nat)
    requires rows != []
    ensures Heads(Lines(Mem, rows, n))
         == [Slice(rows[0] + "\n", 0, 32)] + Heads(Lines(Mem, rows[1..], n + 1))
  {
    assert Lines(Mem, rows, n)[1..] == Lines(Mem, rows[1..], n + 1);
  }

  /**
    Going through a mem file gives the same hex file exactly when rows are at least 128 bits wide, or
    there are none.
   */
  lemma ThroughMemExactly(bitWidth: nat, data: seq<Byte>)
    ensures FromMem(FromBin(bitWidth, data, Mem), Hex) == FromBin(bitWidth, data, Hex)
       <==> bitWidth < 8 || bitWidth >= 128 || data == []
  {
    var n := bitWidth / 8;
    var groups := Groups(data, n);
    var rows := RowTexts(groups);
    forall i | 0 <= i < |rows| ensures |rows[i]| == 2 * n {
      RowTextsAt(groups, i);
    }
    if n == 0 || n >= 16 || data == [] {
      LongRowsKept(rows, 0);
    } else {
      assert rows != [];
      HeadsFirst(rows, 0);
      ShortRowLonger(rows[0], 0);
      assert |FromMem(Lines(Mem, rows, 0), Hex)[0]| > |Lines(Hex, rows, 0)[0]|;
    }
  }

  // ---------- hex to mem ----------

  function LowerChar(c: char): char {
    if 'A' <= c <= 'Z' then (c as int + 32) as char else c
  }

  function Lower(s: string): string {
    seq(|s|, i requires 0 <= i < |s| => LowerChar(s[i]))
  }

  function Flip(inst: string): string {
    Slice(inst, 6, 8) + Slice(inst, 4, 6) + Slice(inst, 2, 4) + Slice(inst, 0, 2)
  }

  /** `inst_total` for one line. */
  function Total(line: string): string {
    var l := Lower(line);
    Flip(Slice(l, 10, 18)) + Flip(Slice(l, 19, 27)) + Flip(Slice(l, 28, 36)) + Flip(Slice(l, 37, 45))
  }

  function Upwards(t: string, i: nat): seq<string>
    decreases 31 - i, |t|
  {
    if i < 31 then [Slice(t, i, i + 2)] + Upwards(t, i + 2) else []
  }

  function Downwards(t: string, i: int, stop: int): seq<string>
    requires stop >= -2 && (i - stop) % 2 == 0
    decreases i - stop, |t|
  {
    if i > stop then [Slice(t, i, i + 2)] + Downwards(t, i - 2, stop) else []
  }

  /** What is printed for the `inst_total` of one line; the two options are compared as text. */
  function Printed(t: string, reverse: string): seq<string> {
    if reverse == "false" then Upwards(t, 0)
    else if reverse == "true" then Downwards(t, 14, -2) + Downwards(t, 30, 14)
    else []
  }

  /** `hex_to_mem`. */
  function HexToMem(lines: seq<string>, reverse: string): seq<string> {
    if lines == [] then [] else Printed(Total(lines[0]), reverse) + HexToMem(lines[1..], reverse)
  }

  method PrintUpwards(t: string, outfile: OutFile)
    modifies outfile
    ensures outfile.lines == old(outfile.lines) + Upwards(t, 0)
  {
    var i := 0;
    while i < 31
      invariant 0 <= i <= 32 && i % 2 == 0
      invariant outfile.lines + Upwards(t, i) == old(outfile.lines) + Upwards(t, 0)
    {
      Regroup(outfile.lines, [Slice(t, i, i + 2)], Upwards(t, i + 2));
      outfile.Write(Slice(t, i, i + 2));
      i := i + 2;
    }
  }

  method PrintDownwards(t: string, start: int, stop: int, outfile: OutFile)
    requires stop >= -2 && (start - stop) % 2 == 0
    modifies outfile
    ensures outfile.lines == old(outfile.lines) + Downwards(t, start, stop)
  {
    var i := start;
    while i > stop
      invariant (i - stop) % 2 == 0
      invariant outfile.lines + Downwards(t, i, stop) == old(outfile.lines) + Downwards(t, start, stop)
    {
      Regroup(outfile.lines, [Slice(t, i, i + 2)], Downwards(t, i - 2, stop));
      outfile.Write(Slice(t, i, i + 2));
      i := i - 2;
    }
  }

  method PrintLine(t: string, outfile: OutFile, reverse: string)
    modifies outfile
    ensures outfile.lines == old(outfile.lines) + Printed(t, reverse)
  {
    if reverse == "false" {
      PrintUpwards(t, outfile);
    }
    if reverse == "true" {
      Regroup(outfile.lines, Downwards(t, 14, -2), Downwards(t, 30, 14));
      PrintDownwards(t, 14, -2, outfile);
      PrintDownwards(t, 30, 14, outfile);
    }
  }

  /** `hex_to_mem`. */
  method ConvertHex(lines: seq<string>, outfile: OutFile, reverse: string)
    modifies outfile
    ensures outfile.lines == old(outfile.lines) + HexToMem(lines, reverse)
  {
    var n := 0;
    while n < |lines|
      invariant 0 <= n <= |lines|
      invariant outfile.lines + HexToMem(lines[n..], reverse) == old(outfile.lines) + HexToMem(lines, reverse)
    {
      Regroup(outfile.lines, Printed(Total(lines[n]), reverse), HexToMem(lines[n + 1..], reverse));
      assert lines[n..][1..] == lines[n + 1..];
      PrintLine(Total(lines[n]), outfile, reverse);
      n := n + 1;
    }
  }

  // ---------- what one line prints ----------

  lemma {:induction false} UpwardsAt(t: string, k: nat, j: nat)
    requires |t| == 32 && j < 16 - k
    ensures |Upwards(t, 2 * k)| == 16 - k && Upwards(t, 2 * k)[j] == Pair(t, k + j)
    decreases 16 - k
  {
    if k < 15 {
      UpwardsAt(t, k + 1, if j == 0 then 0 else j - 1);
    }
  }

  lemma {:induction false} DownwardsAt(t: string, k: nat, bottom: nat, j: nat)
    requires |t| == 32 && bottom <= k < 16 && j < k + 1 - bottom
    ensures |Downwards(t, 2 * k, 2 * bottom - 2)| == k + 1 - bottom
    ensures Downwards(t, 2 * k, 2 * bottom - 2)[j] == Pair(t, k - j)
    decreases k
  {
    if k > bottom {
      DownwardsAt(t, k - 1, bottom, if j == 0 then 0 else j - 1);
    }
  }

  /** `reverse` "true" prints each half of a row backwards. */
  function HalvesReversed<T>(s: seq<T>): seq<T>
    requires |s| % 8 == 0
  {
    seq(|s|, i requires 0 <= i < |s| => s[i - i % 8 + 7 - i % 8])
  }

  function Texts(data: seq<Byte>): seq<string> {
    seq(|data|, i requires 0 <= i < |data| => ByteText(data[i]))
  }

  predicate PairsAre(t: string, row: seq<Byte>) {
    |t| == 2 * |row| && forall k: nat | k < |row| :: Pair(t, k) == ByteText(row[k])
  }

  lemma UpwardsTexts(t: string, row: seq<Byte>, start: nat)
    requires |row| == 16 && PairsAre(t, row) && start == 0
    ensures Upwards(t, start) == Texts(row)
  {
    UpwardsAt(t, start, 0);
    forall k: nat | k < 16 ensures Upwards(t, start)[k] == Texts(row)[k] {
      UpwardsAt(t, start, k);
    }
  }

  lemma ReversedAt<T>(s: seq<T>, bottom: nat, k: nat)
    requires |s| % 8 == 0 && bottom % 8 == 0 && k < 8 && bottom + 8 <= |s|
    ensures HalvesReversed(s)[bottom + k] == s[bottom + 7 - k]
  {
    assert (bottom + k) % 8 == k;
  }

  /** One half of a row, from its last byte down. */
  lemma DownwardsTexts(t: string, row: seq<Byte>, bottom: nat)
    requires |row| == 16 && PairsAre(t, row) && (bottom == 0 || bottom == 8)
    ensures Downwards(t, 2 * (bottom + 7), 2 * bottom - 2) == Texts(HalvesReversed(row)[bottom..bottom + 8])
  {
    var printed := Downwards(t, 2 * (bottom + 7), 2 * bottom - 2);
    var half := HalvesReversed(row)[bottom..bottom + 8];
    DownwardsAt(t, bottom + 7, bottom, 0);
    forall k: nat | k < 8 ensures printed[k] == Texts(half)[k] {
      DownwardsAt(t, bottom + 7, bottom, k);
      ReversedAt(row, bottom, k);
    }
  }

  lemma TextsConcat(a: seq<Byte>, b: seq<Byte>)
    ensures Texts(a + b) == Texts(a) + Texts(b)
  {
  }

  function Expected(data: seq<Byte>, reverse: bool): seq<string>
    requires |data| % 8 == 0
  {
    if reverse then Texts(HalvesReversed(data)) else Texts(data)
  }

  function ReverseText(reverse: bool): string {
    if reverse then "true" else "false"
  }

  lemma PrintedTexts(t: string, row: seq<Byte>, reverse: bool)
    requires |row| == 16 && PairsAre(t, row)
    ensures Printed(t, ReverseText(reverse)) == Expected(row, reverse)
  {
    if reverse {
      DownwardsTexts(t, row, 0);
      DownwardsTexts(t, row, 8);
      var turned := HalvesReversed(row);
      TextsConcat(turned[0..8], turned[8..16]);
      assert turned == turned[0..8] + turned[8..16];
    } else {
      UpwardsTexts(t, row, 0);
    }
  }

  // ---------- bin to hex to mem ----------

  predicate NoUpper(s: string) {
    forall i | 0 <= i < |s| :: !('A' <= s[i] <= 'Z')
  }

  lemma {:induction false} DigitsNoUpper(n: nat)
    ensures NoUpper(Digits(n, 16))
  {
    if n >= 16 {
      DigitsNoUpper(HigherPart(n, 16));
    }
  }

  lemma {:induction false} RowNoUpper(row: seq<Byte>)
    ensures NoUpper(RowText(row))
  {
    if row != [] {
      RowNoUpper(row[1..]);
    }
  }

  lemma LineNoUpper(n: nat, row: string)
    requires NoUpper(row)
    ensures Lower(HexLine(Address(n), row)) == HexLine(Address(n), row)
  {
    DigitsNoUpper(n);
    assert NoUpper(Address(n));
    assert NoUpper(HexLine(Address(n), row));
  }

  /** `inst_total` of the four words of a line. */
  function Flipped(w1: string, w2: string, w3: string, w4: string): string {
    Flip(w1) + Flip(w2) + Flip(w3) + Flip(w4)
  }

  /** With an address of eight digits the fixed columns hold the four words. */
  lemma Columns(address: string, row: string)
    requires |address| == 8 && |row| == 32
    ensures var line := HexLine(address, row);
      && Slice(line, 10, 18) == row[24..32] && Slice(line, 19, 27) == row[16..24]
      && Slice(line, 28, 36) == row[8..16] && Slice(line, 37, 45) == row[0..8]
  {
  }

  lemma FlipPair(w: string, k: nat)
    requires |w| == 8 && k < 4
    ensures |Flip(w)| == 8 && Pair(Flip(w), k) == Pair(w, 3 - k)
  {
  }

  lemma PairOfFour(a: string, b: string, c: string, d: string, k: nat)
    requires |a| == |b| == |c| == |d| == 8 && k < 16
    ensures Pair(a + b + c + d, k) == Pair([a, b, c, d][k / 4], k % 4)
  {
    PairOfConcat(a + b + c, d, k);
    if k < 12 {
      PairOfConcat(a + b, c, k);
    }
    if k < 8 {
      PairOfConcat(a, b, k);
    }
  }

  lemma PairOfSlice(row: string, h: nat, k: nat)
    requires 2 * h + 8 <= |row| && k < 4
    ensures Pair(row[2 * h..2 * h + 8], k) == Pair(row, h + k)
  {
    var word := row[2 * h..2 * h + 8];
    assert word[2 * k] == row[2 * (h + k)] && word[2 * k + 1] == row[2 * (h + k) + 1];
  }

  lemma FlippedPair(row: string, k: nat)
    requires |row| == 32 && k < 16
    ensures var t := Flipped(row[24..32], row[16..24], row[8..16], row[0..8]);
      |t| == 32 && Pair(t, k) == Pair(row, 15 - k)
  {
    var w1, w2, w3, w4 := row[24..32], row[16..24], row[8..16], row[0..8];
    var j := k % 4;
    FlipPair(w1, j);
    FlipPair(w2, j);
    FlipPair(w3, j);
    FlipPair(w4, j);
    PairOfFour(Flip(w1), Flip(w2), Flip(w3), Flip(w4), k);
    PairOfSlice(row, 12, 3 - j);
    PairOfSlice(row, 8, 3 - j);
    PairOfSlice(row, 4, 3 - j);
    PairOfSlice(row, 0, 3 - j);
  }

  lemma LinePairs(row: seq<Byte>, n: nat)
    requires |row| == 16 && |Address(n)| == 8
    ensures PairsAre(Total(Line(Hex, RowText(row), n)), row)
  {
    var text := RowText(row);
    RowNoUpper(row);
    LineNoUpper(n, text);
    Columns(Address(n), text);
    var t := Flipped(text[24..32], text[16..24], text[8..16], text[0..8]);
    assert Total(Line(Hex, text, n)) == t;
    forall k: nat | k < 16 ensures |t| == 32 && Pair(t, k) == ByteText(row[k]) {
      FlippedPair(text, k);
      RowTextPair(row, 15 - k);
    }
  }

  lemma {:induction false} DigitsAtLeast(n: nat, k: nat)
    requires n >= Pow(16, k)
    ensures |Digits(n, 16)| > k
  {
    if k > 0 {
      assert Pow(16, k) == 16 * Pow(16, k - 1);
      PowPositive(k - 1);
      DigitsAtLeast(HigherPart(n, 16), k - 1);
    }
  }

  lemma {:induction false} PowPositive(k: nat)
    ensures Pow(16, k) >= 1
  {
    if k > 0 {
      PowPositive(k - 1);
    }
  }

  /** Addresses have eight digits below 2^32, and nine there. */
  lemma AddressLength(n: nat)
    ensures n < TWO32 ==> |Address(n)| == 8
    ensures n == TWO32 ==> |Address(n)| == 9
  {
    PowersOf16();
    if n < TWO32 {
      DigitsLength(n, 16, 8);
    } else if n == TWO32 {
      DigitsLength(n, 16, 9);
      DigitsAtLeast(n, 8);
    }
  }

  /** One digit more, and the first word is read from one column too far left. */
  lemma ShiftedColumns(address: string, row: string)
    requires |address| == 9 && |row| == 32
    ensures |HexLine(address, row)| >= 45 && HexLine(address, row)[10] == ' '
  {
  }

  lemma ShiftedTotal(line: string)
    requires |line| >= 45 && line[10] == ' '
    ensures |Total(line)| == 32 && Total(line)[6] == ' '
  {
    var l := Lower(line);
    var w1, w2, w3, w4 := l[10..18], l[19..27], l[28..36], l[37..45];
    assert Total(line) == Flipped(w1, w2, w3, w4);
    FlipPair(w1, 3);
    FlipPair(w2, 3);
    FlipPair(w3, 3);
    FlipPair(w4, 3);
    PairOfFour(Flip(w1), Flip(w2), Flip(w3), Flip(w4), 3);
    assert Pair(Total(line), 3) == Pair(Flip(w1), 3) == Pair(w1, 0);
    assert w1[0] == l[10];
  }

  /** Where the fourth pair of a line is printed. */
  function FourthAt(reverse: bool): nat {
    if reverse then 4 else 3
  }

  lemma FourthPrinted(t: string, reverse: bool)
    requires |t| == 32
    ensures |Printed(t, ReverseText(reverse))| == 16
    ensures Printed(t, ReverseText(reverse))[FourthAt(reverse)] == Pair(t, 3)
  {
    if reverse {
      DownwardsAt(t, 7, 0, 4);
      DownwardsAt(t, 15, 8, 0);
    } else {
      UpwardsAt(t, 0, 3);
    }
  }

  lemma ByteIsNoSpace(row: seq<Byte>, reverse: bool)
    requires |row| == 16
    ensures |Expected(row, reverse)| == 16 && Expected(row, reverse)[FourthAt(reverse)][0] != ' '
  {
  }

  /** Such a line prints a pair that begins with a space, which is no byte. */
  lemma ShiftedPrints(t: string, row: seq<Byte>, reverse: bool)
    requires |t| == 32 && |row| == 16 && t[6] == ' '
    ensures |Printed(t, ReverseText(reverse))| == 16
    ensures Printed(t, ReverseText(reverse)) != Expected(row, reverse)
  {
    FourthPrinted(t, reverse);
    ByteIsNoSpace(row, reverse);
  }

  /** A line prints its row exactly when its number is below 2^32. */
  lemma LinePrints(row: seq<Byte>, n: nat, line: string, reverse: bool)
    requires |row| == 16 && n <= TWO32 && line == Line(Hex, RowText(row), n)
    ensures |Printed(Total(line), ReverseText(reverse))| == 16
    ensures Printed(Total(line), ReverseText(reverse)) == Expected(row, reverse) <==> n < TWO32
  {
    AddressLength(n);
    if n < TWO32 {
      LinePairs(row, n);
      PrintedTexts(Total(line), row, reverse);
    } else {
      ShiftedColumns(Address(n), RowText(row));
      ShiftedTotal(line);
      ShiftedPrints(Total(line), row, reverse);
    }
  }

  lemma {:induction false} ExpectedConcat(a: seq<Byte>, b: seq<Byte>, reverse: bool)
    requires |a| == 16 && |b| % 8 == 0
    ensures Expected(a + b, reverse) == Expected(a, reverse) + Expected(b, reverse)
    ensures |Expected(a, reverse)| == 16
  {
    if reverse {
      assert HalvesReversed(a + b) == HalvesReversed(a) + HalvesReversed(b);
      TextsConcat(HalvesReversed(a), HalvesReversed(b));
    } else {
      TextsConcat(a, b);
    }
  }

  lemma {:induction false} ConcatLength(rows: seq<seq<Byte>>)
    requires forall i | 0 <= i < |rows| :: |rows[i]| == 16
    ensures |Concat(rows)| % 8 == 0
  {
    if rows != [] {
      ConcatLength(rows[1..]);
    }
  }

  function Restored(rows: seq<seq<Byte>>, n: nat, reverse: bool): seq<string> {
    HexToMem(Lines(Hex, RowTexts(rows), n), ReverseText(reverse))
  }

  lemma RestoredFirst(rows: seq<seq<Byte>>, n: nat, reverse: bool)
    requires rows != []
    ensures Restored(rows, n, reverse)
         == Printed(Total(Line(Hex, RowText(rows[0]), n)), ReverseText(reverse)) + Restored(rows[1..], n + 1, reverse)
  {
    var lines := Lines(Hex, RowTexts(rows), n);
    assert RowTexts(rows)[1..] == RowTexts(rows[1..]);
    assert lines[1..] == Lines(Hex, RowTexts(rows[1..]), n + 1);
  }

  lemma SameHead<T>(a: seq<T>, x: seq<T>, b: seq<T>, y: seq<T>)
    requires |a| == |b|
    ensures a + x == b + y <==> a == b && x == y
  {
    assert (a + x)[..|a|] == a && (b + y)[..|b|] == b;
    assert (a + x)[|a|..] == x && (b + y)[|b|..] == y;
  }

  lemma {:induction false} RestoredExactly(rows: seq<seq<Byte>>, n: nat, reverse: bool)
    requires n <= TWO32 && forall i | 0 <= i < |rows| :: |rows[i]| == 16
    ensures |Concat(rows)| % 8 == 0
    ensures Restored(rows, n, reverse) == Expected(Concat(rows), reverse) <==> n + |rows| <= TWO32
  {
    ConcatLength(rows);
    if rows != [] {
      var line := Line(Hex, RowText(rows[0]), n);
      ConcatLength(rows[1..]);
      RestoredFirst(rows, n, reverse);
      LinePrints(rows[0], n, line, reverse);
      ExpectedConcat(rows[0], Concat(rows[1..]), reverse);
      if n < TWO32 {
        RestoredExactly(rows[1..], n + 1, reverse);
      }
      SameHead(Printed(Total(line), ReverseText(reverse)), Restored(rows[1..], n + 1, reverse),
               Expected(rows[0], reverse), Expected(Concat(rows[1..]), reverse));
    }
  }

  /**
    Binary to 128-bit hex to mem lists every byte of the zero-padded data, in order or with each half
    row reversed, exactly when there are at most 2^32 rows.
   */
  lemma ThroughHexExactly(data: seq<Byte>, reverse: bool)
    ensures IsPadded(data, 16, Concat(Groups(data, 16))) && |Concat(Groups(data, 16))| % 8 == 0
    ensures HexToMem(FromBin(128, data, Hex), ReverseText(reverse)) == Expected(Concat(Groups(data, 16)), reverse)
       <==> |Groups(data, 16)| <= TWO32
  {
    GroupsCover(data, 16);
    RestoredExactly(Groups(data, 16), 0, reverse);
  }
}
