/**
  What the files of `pk/freedom-bin2hex.py` say to a reader: a line of a mem file is its row as one
  little-endian number, and a line of a hex file is an address with four little-endian words.
 */
module HexWords {
  import opened Bin2Hex
  import opened Numerals

  /** The number that bytes stand for, the least significant first. */
  function LittleEndian(bytes: seq<Byte>): nat {
    if bytes == [] then 0 else bytes[0] + 256 * LittleEndian(bytes[1..])
  }

  lemma PositionalTwo(s: string, c: char, d: char)
    ensures Positional(s + [c, d], 16) == Positional(s, 16) * 256 + DigitOf(c) * 16 + DigitOf(d)
  {
    assert s + [c, d] == (s + [c]) + [d];
    PositionalAppend(s, c, 16);
    PositionalAppend(s + [c], d, 16);
  }

  lemma DigitChars(b: Byte)
    ensures DigitOf(DigitChar(b / 16)) * 16 + DigitOf(DigitChar(b % 16)) == b
  {
  }

  /** The text of a row, read in base 16. */
  lemma {:induction false} RowValue(row: seq<Byte>)
    ensures Positional(RowText(row), 16) == LittleEndian(row)
  {
    if row != [] {
      RowValue(row[1..]);
      PositionalTwo(RowText(row[1..]), DigitChar(row[0] / 16), DigitChar(row[0] % 16));
      DigitChars(row[0]);
    }
  }

  lemma {:induction false} RowTextConcat(a: seq<Byte>, b: seq<Byte>)
    ensures RowText(a + b) == RowText(b) + RowText(a)
  {
    if a == [] {
      assert a + b == b && RowText(b) + "" == RowText(b);
    } else {
      assert (a + b)[1..] == a[1..] + b;
      RowTextConcat(a[1..], b);
      Regroup(RowText(b), RowText(a[1..]), ByteText(a[0]));
    }
  }

  lemma RowTextMiddle(a: seq<Byte>, b: seq<Byte>, c: seq<Byte>)
    ensures RowText(a + (b + c)) == RowText(c) + RowText(b) + RowText(a)
  {
    RowTextConcat(a, b + c);
    RowTextConcat(b, c);
  }

  lemma Pieces(row: seq<Byte>, i: nat, j: nat)
    requires i <= j <= |row|
    ensures row == row[..i] + (row[i..j] + row[j..])
  {
  }

  /** Bytes i to j of a row stand in its text at these columns. */
  lemma RowTextPart(row: seq<Byte>, i: nat, j: nat, lo: nat, hi: nat)
    requires i <= j <= |row| && lo == 2 * (|row| - j) && hi == 2 * (|row| - i)
    ensures RowText(row)[lo..hi] == RowText(row[i..j])
  {
    Pieces(row, i, j);
    RowTextMiddle(row[..i], row[i..j], row[j..]);
    MiddleAt(RowText(row), RowText(row[j..]), RowText(row[i..j]), RowText(row[..i]), lo, hi);
  }

  lemma MiddleAt(s: string, c: string, b: string, a: string, lo: nat, hi: nat)
    requires s == c + b + a && lo == |c| && hi == lo + |b|
    ensures s[lo..hi] == b
  {
  }

  // ---------- lines of a hex file ----------

  predicate IsHexLine(line: string, address: nat, words: seq<nat>)
    requires |words| == 4
  {
    && |line| == 46 && line[0] == '@' && line[45] == '\n'
    && Positional(line[1..9], 16) == address
    && forall j | 0 <= j < 4 :: line[9 + 9 * j] == ' ' && Positional(line[10 + 9 * j..18 + 9 * j], 16) == words[j]
  }

  /** The four 32-bit words of a row. */
  function Words(row: seq<Byte>): (words: seq<nat>)
    requires |row| == 16
    ensures |words| == 4
  {
    [LittleEndian(row[0..4]), LittleEndian(row[4..8]), LittleEndian(row[8..12]), LittleEndian(row[12..16])]
  }

  lemma WordsOfRow(row: seq<Byte>, text: string)
    requires |row| == 16 && text == RowText(row)
    ensures Positional(text[24..32], 16) == LittleEndian(row[0..4])
    ensures Positional(text[16..24], 16) == LittleEndian(row[4..8])
    ensures Positional(text[8..16], 16) == LittleEndian(row[8..12])
    ensures Positional(text[0..8], 16) == LittleEndian(row[12..16])
  {
    RowTextPart(row, 0, 4, 24, 32);
    RowTextPart(row, 4, 8, 16, 24);
    RowTextPart(row, 8, 12, 8, 16);
    RowTextPart(row, 12, 16, 0, 8);
    RowValue(row[0..4]);
    RowValue(row[4..8]);
    RowValue(row[8..12]);
    RowValue(row[12..16]);
  }

  lemma LineColumns(line: string, address: string, text: string)
    requires |address| == 8 && |text| == 32 && line == HexLine(address, text)
    ensures |line| == 46 && line[0] == '@' && line[45] == '\n' && line[1..9] == address
    ensures line[9] == line[18] == line[27] == line[36] == ' '
    ensures line[10..18] == text[24..32] && line[19..27] == text[16..24]
    ensures line[28..36] == text[8..16] && line[37..45] == text[0..8]
  {
  }

  /** One line: the number of its row, and the row as four little-endian words. */
  lemma LineSays(row: seq<Byte>, n: nat, line: string)
    requires |row| == 16 && n < TWO32 && line == Line(Hex, RowText(row), n)
    ensures IsHexLine(line, n, Words(row))
  {
    AddressLength(n);
    PaddedPositional(n, 16, 8);
    LineColumns(line, Address(n), RowText(row));
    WordsOfRow(row, RowText(row));
    LineHolds(line, n, Words(row));
  }

  lemma LineHolds(line: string, n: nat, words: seq<nat>)
    requires |words| == 4 && |line| == 46 && line[0] == '@' && line[45] == '\n' && Positional(line[1..9], 16) == n
    requires line[9] == line[18] == line[27] == line[36] == ' '
    requires Positional(line[10..18], 16) == words[0] && Positional(line[19..27], 16) == words[1]
    requires Positional(line[28..36], 16) == words[2] && Positional(line[37..45], 16) == words[3]
    ensures IsHexLine(line, n, words)
  {
    forall j | 0 <= j < 4
      ensures line[9 + 9 * j] == ' ' && Positional(line[10 + 9 * j..18 + 9 * j], 16) == words[j]
    {
      assert j == 0 || j == 1 || j == 2 || j == 3;
    }
  }

  // ---------- whole files ----------

  lemma {:induction false} LinesAt(output: FileType, rows: seq<string>, n: nat, i: nat)
    requires i < |rows|
    ensures Lines(output, rows, n)[i] == Line(output, rows[i], n + i)
  {
    if i > 0 {
      LinesAt(output, rows[1..], n + 1, i - 1);
    }
  }

  lemma {:induction false} HeadsAt(lines: seq<string>, i: nat)
    requires i < |lines|
    ensures Heads(lines)[i] == Slice(lines[i], 0, 32)
  {
    if i > 0 {
      HeadsAt(lines[1..], i - 1);
    }
  }

  /** Every line of a hex file from 128-bit rows, up to number 2^32: its own number, and the row's words. */
  lemma HexFileSays(data: seq<Byte>, i: nat)
    requires i < |Groups(data, 16)| && i < TWO32
    ensures |FromBin(128, data, Hex)| == |Groups(data, 16)|
    ensures IsHexLine(FromBin(128, data, Hex)[i], i, Words(Groups(data, 16)[i]))
  {
    var rows := Groups(data, 16);
    RowTextsAt(rows, i);
    LinesAt(Hex, RowTexts(rows), 0, i);
    LineSays(rows[i], i, FromBin(128, data, Hex)[i]);
  }

  /** Every line of a mem file, for rows of any width: the row as one number. */
  lemma MemFileSays(bitWidth: nat, data: seq<Byte>, i: nat, row: seq<Byte>, line: string)
    requires i < |Groups(data, bitWidth / 8)| && row == Groups(data, bitWidth / 8)[i]
    requires line == FromBin(bitWidth, data, Mem)[i]
    ensures |line| == 2 * |row| + 1 && line[2 * |row|] == '\n'
    ensures Positional(line[..2 * |row|], 16) == LittleEndian(row)
  {
    var rows := Groups(data, bitWidth / 8);
    RowTextsAt(rows, i);
    LinesAt(Mem, RowTexts(rows), 0, i);
    RowValue(row);
    assert (RowText(row) + "\n")[..2 * |row|] == RowText(row);
  }

  /** Reading a mem file numbers its lines in the same way. */
  lemma MemLinesNumbered(lines: seq<string>, i: nat)
    requires i < |lines|
    ensures FromMem(lines, Hex)[i] == Line(Hex, Slice(lines[i], 0, 32), i)
  {
    HeadsAt(lines, i);
    LinesAt(Hex, Heads(lines), 0, i);
  }

  // ---------- upper case ----------

  /** The same text up to the case of its letters. */
  predicate SameUpToCase(s: string, t: string) {
    |s| == |t| && forall i | 0 <= i < |s| ::
      s[i] == t[i] || ('A' <= s[i] <= 'Z' && t[i] as int == s[i] as int + 32)
                   || ('A' <= t[i] <= 'Z' && s[i] as int == t[i] as int + 32)
  }

  /** Upper and lower case in a hex line make no difference. */
  lemma CaseIgnored(s: string, t: string)
    requires SameUpToCase(s, t)
    ensures Total(s) == Total(t)
  {
    forall i | 0 <= i < |s|
      ensures Lower(s)[i] == Lower(t)[i]
    {
      assert Lower(s)[i] == LowerChar(s[i]) && Lower(t)[i] == LowerChar(t[i]);
    }
    assert Lower(s) == Lower(t);
  }

  lemma {:induction false} CaseIgnoredInFile(lines: seq<string>, others: seq<string>, reverse: string)
    requires |lines| == |others| && forall i | 0 <= i < |lines| :: SameUpToCase(lines[i], others[i])
    ensures HexToMem(lines, reverse) == HexToMem(others, reverse)
  {
    if lines != [] {
      CaseIgnored(lines[0], others[0]);
      CaseIgnoredInFile(lines[1..], others[1..], reverse);
    }
  }
}
