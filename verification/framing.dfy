/** handlePPM.c (and its twin handleImage.c): trimming a PPM image to even
    dimensions, and the compressed stream, which is a header carrying twice
    the word grid's width and height, a newline, and then every 32-bit code
    word as four bytes, most significant first, in row-major order.

    The header's text (`printf`/`fscanf` of "COMP40 Compressed image format
    2\n%u %u") is abstracted: the printer returns the two numbers, and the
    reader is given what `fscanf` matched, or None when it did not match two
    numbers. The bytes after the header are a sequence, and `getc` at its end
    is EOF. */
module Framing {
  import opened Arith
  import opened Results
  import opened Bitpack
  import opened Image
  import opened PackWord

  /** '\n', which separates the header from the code words. */
  const NEWLINE: Byte := 10

  /** Bytes per code word. */
  const BYTES_PER_WORD := 4

  /** struct Pnm_ppm: the pixel array is indexed [col, row]. */
  datatype Ppm = Ppm(width: nat, height: nat, denominator: nat, pixels: array2<Rgb>)

  /** The assertion failures of readInCompressed. */
  datatype ReadError = BadHeader | MissingNewline | EarlyEof

  /** `dim - dim % 2`: the largest even number not above dim. */
  function Trimmed(dim: nat): (r: nat)
    ensures r % 2 == 0 && r <= dim && dim - r <= 1
    ensures dim % 2 == 0 ==> r == dim
  {
    dim - dim % 2
  }

  /** trimImage: a new image of the top-left even-sized part of original,
      copied pixel by pixel in row-major order, with the same denominator. */
  method TrimImage(original: Ppm) returns (trimmed: Ppm)
    requires original.pixels.Length0 == original.width && original.pixels.Length1 == original.height
    ensures trimmed.width == Trimmed(original.width) && trimmed.height == Trimmed(original.height)
    ensures trimmed.denominator == original.denominator
    ensures fresh(trimmed.pixels)
    ensures trimmed.pixels.Length0 == trimmed.width && trimmed.pixels.Length1 == trimmed.height
    ensures forall col, row :: 0 <= col < trimmed.width && 0 <= row < trimmed.height ==>
      trimmed.pixels[col, row] == original.pixels[col, row]
  {
    var trimmedHeight := Trimmed(original.height);
    var trimmedWidth := Trimmed(original.width);
    var pixels := new Rgb[trimmedWidth, trimmedHeight]((_, _) => Rgb(0, 0, 0));
    var row := 0;
    while row < trimmedHeight
      invariant 0 <= row <= trimmedHeight
      invariant forall c, r :: 0 <= c < trimmedWidth && 0 <= r < row ==> pixels[c, r] == original.pixels[c, r]
    {
      var col := 0;
      while col < trimmedWidth
        invariant 0 <= col <= trimmedWidth
        invariant forall c, r :: 0 <= c < trimmedWidth && 0 <= r < row ==> pixels[c, r] == original.pixels[c, r]
        invariant forall c :: 0 <= c < col ==> pixels[c, row] == original.pixels[c, row]
      {
        pixels[col, row] := original.pixels[col, row];
        col := col + 1;
      }
      row := row + 1;
    }
    trimmed := Ppm(trimmedWidth, trimmedHeight, original.denominator, pixels);
  }

  /** The number that bytes spell, most significant first: the reference
      for both directions of the word encoding. */
  function BigEndian(bytes: seq<Byte>): nat {
    if |bytes| == 0 then 0 else BigEndian(bytes[..|bytes| - 1]) * 256 + bytes[|bytes| - 1]
  }

  /** n bytes spell a number below 2^(8n). */
  lemma {:induction false} BigEndianBound(bytes: seq<Byte>)
    ensures BigEndian(bytes) < Pow2(8 * |bytes|)
  {
    if |bytes| > 0 {
      var prefix := bytes[..|bytes| - 1];
      BigEndianBound(prefix);
      Pow2Add(8 * (|bytes| - 1), 8);
      assert Pow2(8) == 256 by { BytePowers(); }
      MulMonotone(BigEndian(prefix) + 1, Pow2(8 * (|bytes| - 1)), 256);
    }
  }

  /** Pow2 at the byte boundaries. */
  lemma BytePowers()
    ensures Pow2(8) == 256 && Pow2(16) == 65536 && Pow2(24) == 16777216 && Pow2(32) == 4294967296
  {
    Pow2Add(4, 4);
    Pow2Add(8, 8);
    Pow2Add(16, 8);
    Pow2Add(24, 8);
    SmallPowers();
  }

  /** Equal-length byte strings that spell the same number are equal. */
  lemma {:induction false} BigEndianInjective(a: seq<Byte>, b: seq<Byte>)
    requires |a| == |b| && BigEndian(a) == BigEndian(b)
    ensures a == b
  {
    if |a| > 0 {
      var n := |a| - 1;
      DivModUnique(BigEndian(a), 256, BigEndian(a[..n]), a[n]);
      DivModUnique(BigEndian(b), 256, BigEndian(b[..n]), b[n]);
      BigEndianInjective(a[..n], b[..n]);
      assert a == a[..n] + [a[n]];
      assert b == b[..n] + [b[n]];
    }
  }

  /** printWordApply: the word's four bytes, most significant first. */
  function WordBytes(word: Word32): (bytes: seq<Byte>)
    ensures |bytes| == BYTES_PER_WORD
  {
    [word / 16777216 % 256, word / 65536 % 256, word / 256 % 256, word % 256]
  }

  /** The bytes are the fields `Bitpack_getu(word, 8, 24)`, `(word, 8, 16)`,
      `(word, 8, 8)` and `(word, 8, 0)`, in that order. */
  lemma WordBytesByBitpack(word: Word32)
    ensures WordBytes(word) == [ReadUnsigned(word, 8, 24), ReadUnsigned(word, 8, 16), ReadUnsigned(word, 8, 8), ReadUnsigned(word, 8, 0)]
  {
    BytePowers();
  }

  /** The bytes spell the word back. */
  lemma WordBytesSpell(word: Word32)
    ensures BigEndian(WordBytes(word)) == word
  {
    var bytes := WordBytes(word);
    var b0, b1, b2, b3 := bytes[0], bytes[1], bytes[2], bytes[3];
    BytePowers();
    Digits(word, b0, b1, b2, b3);
    BigEndianSnoc([], b0);
    BigEndianSnoc([b0], b1);
    BigEndianSnoc([b0, b1], b2);
    BigEndianSnoc([b0, b1, b2], b3);
    assert [b0] == [] + [b0];
    assert [b0, b1] == [b0] + [b1];
    assert [b0, b1, b2] == [b0, b1] + [b2];
    assert bytes == [b0, b1, b2] + [b3];
  }

  /** The base-256 digits of a number below 2^32. */
  lemma Digits(word: nat, b0: nat, b1: nat, b2: nat, b3: nat)
    requires word < 4294967296
    requires b3 == word % 256 && b2 == (word / 256) % 256 && b1 == (word / 65536) % 256 && b0 == (word / 16777216) % 256
    ensures ((b0 * 256 + b1) * 256 + b2) * 256 + b3 == word
  {
    var x1, x2, x3 := word / 256, word / 65536, word / 16777216;
    QuotientRemainder(word, 256);
    DivDiv(word, 256, 256);
    QuotientRemainder(x1, 256);
    DivDiv(word, 65536, 256);
    QuotientRemainder(x2, 256);
    DivBelow(word, 16777216, 256);
    DivModUnique(x3, 256, 0, x3);
  }

  /** One more byte at the end shifts the number up by a byte. */
  lemma BigEndianSnoc(bytes: seq<Byte>, b: Byte)
    ensures BigEndian(bytes + [b]) == BigEndian(bytes) * 256 + b
  {
    assert (bytes + [b])[..|bytes|] == bytes;
  }

  /** The bytes of the word that bytes spell are those bytes. */
  lemma WordBytesOfBigEndian(bytes: seq<Byte>)
    requires |bytes| == BYTES_PER_WORD
    ensures BigEndian(bytes) < Pow2(32)
    ensures WordBytes(BigEndian(bytes)) == bytes
  {
    BigEndianBound(bytes);
    WordBytesSpell(BigEndian(bytes));
    BigEndianInjective(WordBytes(BigEndian(bytes)), bytes);
  }

  /** Reading one more byte into bits [lsb, lsb + 8) of a word whose bits
      below lsb + 8 are clear appends it to the number the word spells. */
  lemma AppendByte(word: nat, r: nat, p: nat, c: nat, lsb: nat)
    requires Pow2(8) == 256
    requires word == p * Pow2(lsb + 8)
    requires Field(r, 8, lsb) == c
    requires r % Pow2(lsb) == word % Pow2(lsb) && r / Pow2(lsb + 8) == word / Pow2(lsb + 8)
    ensures r == (p * 256 + c) * Pow2(lsb)
  {
    FieldSplit(r, 8, lsb);
    Pow2Add(lsb, 8);
    DivModUnique(word, Pow2(lsb + 8), p, 0);
    assert word == (p * 256) * Pow2(lsb);
    DivModUnique(word, Pow2(lsb), p * 256, 0);
    MulDistrib(p * 256, c, Pow2(lsb));
  }

  /** `word = Bitpack_newu(word, 8, byte * 8, c)`: the byte lands in bits
      [8 * byte, 8 * byte + 8) and the other bits stay. */
  method NewByte(word: Word32, byte: nat, c: Byte) returns (written: Word32)
    requires byte < BYTES_PER_WORD
    ensures Field(written, 8, 8 * byte) == c
    ensures written % Pow2(8 * byte) == word % Pow2(8 * byte)
    ensures written / Pow2(8 * byte + 8) == word / Pow2(8 * byte + 8)
  {
    assert Pow2(8) == 256 by { BytePowers(); }
    var r := WriteUnsigned(word, 8, 8 * byte, SmallWord(c));
    written := r.value;
  }

  /** One turn of the word loop: the byte at next lands below the bytes
      already read. */
  lemma ReadStep(input: seq<Byte>, start: nat, next: nat, word: nat, r: nat, byte: nat)
    requires start <= next < |input| && next == start + (3 - byte)
    requires word == BigEndian(input[start..next]) * Pow2(8 * (byte + 1))
    requires Field(r, 8, 8 * byte) == input[next]
    requires r % Pow2(8 * byte) == word % Pow2(8 * byte) && r / Pow2(8 * byte + 8) == word / Pow2(8 * byte + 8)
    ensures r == BigEndian(input[start..next + 1]) * Pow2(8 * byte)
  {
    assert Pow2(8) == 256 by { BytePowers(); }
    BigEndianExtend(input, start, next);
    AppendByte(word, r, BigEndian(input[start..next]), input[next], 8 * byte);
  }

  /** The number a slice spells, one byte longer. */
  lemma BigEndianExtend(s: seq<Byte>, i: nat, j: nat)
    requires i <= j < |s|
    ensures BigEndian(s[i..j + 1]) == BigEndian(s[i..j]) * 256 + s[j]
  {
    assert s[i..j + 1][..j - i] == s[i..j];
  }

  /** The word loop of readInCompressed: four `getc`s, the first into bits
      24..31 and the last into bits 0..7, each through `Bitpack_newu`;
      EarlyEof when the stream ends first. */
  method ReadWord(input: seq<Byte>, start: nat) returns (r: Result<Word32, ReadError>)
    requires start <= |input|
    ensures r.Ok? <==> start + BYTES_PER_WORD <= |input|
    ensures r.Ok? ==> r.value == BigEndian(input[start..start + BYTES_PER_WORD])
    ensures r.Err? ==> r.error == EarlyEof
  {
    var word: Word32 := 0;
    var byte := BYTES_PER_WORD - 1;
    assert input[start..start + (3 - byte)] == [];
    while byte >= 0
      invariant -1 <= byte < BYTES_PER_WORD
      invariant start + (3 - byte) <= |input|
      invariant word == BigEndian(input[start..start + (3 - byte)]) * Pow2(8 * (byte + 1))
    {
      var next := start + (3 - byte);
      if next >= |input| {
        return Err(EarlyEof);
      }
      var written := NewByte(word, byte, input[next]);
      ReadStep(input, start, next, word, written, byte);
      word := written;
      byte := byte - 1;
    }
    assert Pow2(0) == 1;
    return Ok(word);
  }

  /** Where the bytes of word (col, row) of a grid wordsWidth words wide
      start, after the header's newline. */
  function Offset(col: nat, row: nat, wordsWidth: nat): nat {
    1 + BYTES_PER_WORD * WordIndex(col, row, wordsWidth)
  }

  /** The place of word (col, row) in row-major order. */
  function WordIndex(col: nat, row: nat, wordsWidth: nat): nat {
    row * wordsWidth + col
  }

  /** The newline and the bytes of every word of the grid. */
  function StreamLength(wordsWidth: nat, wordsHeight: nat): nat {
    1 + BYTES_PER_WORD * (wordsHeight * wordsWidth)
  }

  /** Every word of the grid lies inside the stream. */
  lemma WordInStream(col: nat, row: nat, wordsWidth: nat, wordsHeight: nat)
    requires col < wordsWidth && row < wordsHeight
    ensures Offset(col, row, wordsWidth) + BYTES_PER_WORD <= StreamLength(wordsWidth, wordsHeight)
  {
    MulDistrib(row, 1, wordsWidth);
    MulMonotone(row + 1, wordsHeight, wordsWidth);
  }

  /** The word after the last of a row is the first of the next row. */
  lemma NextRowOffset(row: nat, wordsWidth: nat)
    ensures Offset(wordsWidth, row, wordsWidth) == Offset(0, row + 1, wordsWidth)
  {
    MulDistrib(row, 1, wordsWidth);
  }

  /** A whole row of the grid lies inside the stream. */
  lemma RowInStream(row: nat, wordsWidth: nat, wordsHeight: nat)
    requires row < wordsHeight
    ensures Offset(0, row + 1, wordsWidth) <= StreamLength(wordsWidth, wordsHeight)
  {
    MulMonotone(row + 1, wordsHeight, wordsWidth);
  }

  /** The bytes of an earlier part of the output stay where they were when
      more bytes are appended. */
  lemma SliceOfPrefix(prefix: seq<Byte>, output: seq<Byte>, lo: nat, hi: nat)
    requires lo <= hi <= |prefix| <= |output| && output[..|prefix|] == prefix
    ensures output[lo..hi] == prefix[lo..hi]
  {
    forall k | 0 <= k < hi - lo
      ensures output[lo..hi][k] == prefix[lo..hi][k]
    {
      assert output[lo + k] == output[..|prefix|][lo + k];
    }
  }

  /** Word (col, row) of the grid holds the four bytes at its offset in the
      stream, read most significant first. */
  ghost predicate Decoded(words: array2<Word32>, input: seq<Byte>, col: nat, row: nat)
    requires col < words.Length0 && row < words.Length1
    reads words
  {
    var at := Offset(col, row, words.Length0);
    at + BYTES_PER_WORD <= |input| && words[col, row] == BigEndian(input[at..at + BYTES_PER_WORD])
  }

  /** readInCompressed: after the header and its newline, a grid of
      (width / 2) x (height / 2) words, each read as four bytes, most
      significant first, in row-major order. A header that does not match,
      a missing newline, or a stream too short for the grid is an error. */
  method ReadInCompressed(header: Option<(nat, nat)>, input: seq<Byte>) returns (r: Result<array2<Word32>, ReadError>)
    ensures header.None? ==> r == Err(BadHeader)
    ensures header.Some? && (|input| == 0 || input[0] != NEWLINE) ==> r == Err(MissingNewline)
    ensures header.Some? && |input| > 0 && input[0] == NEWLINE ==>
              (r.Ok? <==> StreamLength(header.value.0 / 2, header.value.1 / 2) <= |input|)
    ensures r.Err? && header.Some? && |input| > 0 && input[0] == NEWLINE ==> r.error == EarlyEof
    ensures r.Ok? ==> header.Some? && fresh(r.value)
    ensures r.Ok? ==> r.value.Length0 == header.value.0 / 2 && r.value.Length1 == header.value.1 / 2
    ensures r.Ok? ==> forall col, row :: 0 <= col < r.value.Length0 && 0 <= row < r.value.Length1 ==> Decoded(r.value, input, col, row)
  {
    if header.None? {
      return Err(BadHeader);
    }
    if |input| == 0 || input[0] != NEWLINE {
      return Err(MissingNewline);
    }
    var wordsHeight := header.value.1 / 2;
    var wordsWidth := header.value.0 / 2;
    var words := new Word32[wordsWidth, wordsHeight]((_, _) => 0);
    var row := 0;
    while row < wordsHeight
      invariant 0 <= row <= wordsHeight
      invariant Offset(0, row, wordsWidth) <= |input|
      invariant forall c, r :: 0 <= c < wordsWidth && 0 <= r < row ==> Decoded(words, input, c, r)
    {
      label BeforeRow:
      var complete := ReadRow(words, input, row);
      if !complete {
        RowInStream(row, wordsWidth, wordsHeight);
        return Err(EarlyEof);
      }
      forall c, r | 0 <= c < wordsWidth && 0 <= r < row
        ensures Decoded(words, input, c, r)
      {
        assert old@BeforeRow(Decoded(words, input, c, r));
        assert words[c, r] == old@BeforeRow(words[c, r]);
      }
      row := row + 1;
    }
    return Ok(words);
  }

  /** One row of readInCompressed's loop: the words of the row, read from
      the stream in order; false when the stream ends inside the row. */
  method ReadRow(words: array2<Word32>, input: seq<Byte>, row: nat) returns (complete: bool)
    requires row < words.Length1 && Offset(0, row, words.Length0) <= |input|
    modifies words
    ensures complete <==> Offset(0, row + 1, words.Length0) <= |input|
    ensures complete ==> forall c :: 0 <= c < words.Length0 ==> Decoded(words, input, c, row)
    ensures forall c, r :: 0 <= c < words.Length0 && 0 <= r < words.Length1 && r != row ==> words[c, r] == old(words[c, r])
  {
    var wordsWidth := words.Length0;
    NextRowOffset(row, wordsWidth);
    var col := 0;
    while col < wordsWidth
      invariant 0 <= col <= wordsWidth
      invariant Offset(col, row, wordsWidth) <= |input|
      invariant forall c :: 0 <= c < col ==> Decoded(words, input, c, row)
      invariant forall c, r :: 0 <= c < wordsWidth && 0 <= r < words.Length1 && r != row ==> words[c, r] == old(words[c, r])
    {
      var word := ReadWord(input, Offset(col, row, wordsWidth));
      if word.Err? {
        return false;
      }
      words[col, row] := word.value;
      col := col + 1;
    }
    return true;
  }

  /** The stream printCompressedImage has written once the first k rows of
      the grid are out: the newline, then the four bytes of each word. */
  function Printed(words: array2<Word32>, k: nat): (bytes: seq<Byte>)
    requires k <= words.Length1
    reads words
    ensures |bytes| == Offset(0, k, words.Length0)
    decreases k, 0
  {
    if k == 0 then [NEWLINE] else
      NextRowOffset(k - 1, words.Length0);
      PrintedRow(words, k - 1, words.Length0)
  }

  /** The stream once, in addition, the first n words of the given row are
      out. */
  function PrintedRow(words: array2<Word32>, row: nat, n: nat): (bytes: seq<Byte>)
    requires row < words.Length1 && n <= words.Length0
    reads words
    ensures |bytes| == Offset(n, row, words.Length0)
    decreases row, n + 1
  {
    if n == 0 then Printed(words, row) else PrintedRow(words, row, n - 1) + WordBytes(words[n - 1, row])
  }

  /** Once the first k rows are out, word (c, r) of those rows is spelled at
      Offset(c, r). */
  lemma {:induction false} PrintedLayout(words: array2<Word32>, k: nat, c: nat, r: nat)
    requires k <= words.Length1 && c < words.Length0 && r < k
    ensures Offset(c, r, words.Length0) + BYTES_PER_WORD <= |Printed(words, k)|
    ensures Printed(words, k)[Offset(c, r, words.Length0)..Offset(c, r, words.Length0) + BYTES_PER_WORD] == WordBytes(words[c, r])
    decreases k, 0
  {
    PrintedRowLayout(words, k - 1, words.Length0, c, r);
  }

  /** The same for a stream that stops inside a row: every word printed so
      far is spelled at its offset. */
  lemma {:induction false} PrintedRowLayout(words: array2<Word32>, row: nat, n: nat, c: nat, r: nat)
    requires row < words.Length1 && n <= words.Length0 && c < words.Length0
    requires r < row || (r == row && c < n)
    ensures Offset(c, r, words.Length0) + BYTES_PER_WORD <= |PrintedRow(words, row, n)|
    ensures PrintedRow(words, row, n)[Offset(c, r, words.Length0)..Offset(c, r, words.Length0) + BYTES_PER_WORD] == WordBytes(words[c, r])
    decreases row, n + 1
  {
    var at := Offset(c, r, words.Length0);
    if n == 0 {
      PrintedLayout(words, row, c, r);
    } else {
      var prev := PrintedRow(words, row, n - 1);
      var all := PrintedRow(words, row, n);
      assert all == prev + WordBytes(words[n - 1, row]);
      if r == row && c == n - 1 {
        SliceOfSuffix(all, prev, WordBytes(words[c, r]), at, 0, BYTES_PER_WORD);
      } else {
        PrintedRowLayout(words, row, n - 1, c, r);
        SliceOfPrefix(prev, all, at, at + BYTES_PER_WORD);
      }
    }
  }

  /** The bytes of a later part of the output, shifted by what precedes it. */
  lemma SliceOfSuffix(all: seq<Byte>, prefix: seq<Byte>, suffix: seq<Byte>, at: nat, lo: nat, n: nat)
    requires all == prefix + suffix && at == |prefix| + lo && lo + n <= |suffix|
    ensures all[at..at + n] == suffix[lo..lo + n]
  {
    forall i | at <= i < at + n
      ensures all[i] == suffix[i - at + lo]
    {
    }
  }

  /** printCompressedImage: the header carries twice the grid's width and
      height; then come the newline and printWordApply's four bytes of every
      word, in row-major order. */
  method PrintCompressedImage(words: array2<Word32>) returns (header: (nat, nat), output: seq<Byte>)
    ensures header == (2 * words.Length0, 2 * words.Length1)
    ensures output == Printed(words, words.Length1)
    ensures |output| == StreamLength(words.Length0, words.Length1)
    ensures forall col, row :: 0 <= col < words.Length0 && 0 <= row < words.Length1 ==>
      Offset(col, row, words.Length0) + BYTES_PER_WORD <= |output| &&
      output[Offset(col, row, words.Length0)..Offset(col, row, words.Length0) + BYTES_PER_WORD] == WordBytes(words[col, row])
  {
    header := (words.Length0 * 2, words.Length1 * 2);
    output := [NEWLINE];
    var row := 0;
    while row < words.Length1
      invariant 0 <= row <= words.Length1
      invariant output == Printed(words, row)
    {
      var col := 0;
      while col < words.Length0
        invariant 0 <= col <= words.Length0
        invariant output == PrintedRow(words, row, col)
      {
        output := output + WordBytes(words[col, row]);
        col := col + 1;
      }
      row := row + 1;
    }
    forall col, row | 0 <= col < words.Length0 && 0 <= row < words.Length1
      ensures Offset(col, row, words.Length0) + BYTES_PER_WORD <= |output|
      ensures output[Offset(col, row, words.Length0)..Offset(col, row, words.Length0) + BYTES_PER_WORD] == WordBytes(words[col, row])
    {
      PrintedLayout(words, words.Length1, col, row);
    }
  }

  /** The printed stream starts with the newline that ends the header. */
  lemma {:induction false} PrintedStartsWithNewline(words: array2<Word32>, k: nat)
    requires k <= words.Length1
    ensures Printed(words, k)[0] == NEWLINE
    decreases k, 0
  {
    if k > 0 {
      PrintedRowStartsWithNewline(words, k - 1, words.Length0);
    }
  }

  lemma {:induction false} PrintedRowStartsWithNewline(words: array2<Word32>, row: nat, n: nat)
    requires row < words.Length1 && n <= words.Length0
    ensures PrintedRow(words, row, n)[0] == NEWLINE
    decreases row, n + 1
  {
    if n == 0 {
      PrintedStartsWithNewline(words, row);
    } else {
      PrintedRowStartsWithNewline(words, row, n - 1);
    }
  }

  /** Reading word (c, r) back from the printed stream gives the word. */
  lemma PrintedDecodes(words: array2<Word32>, c: nat, r: nat)
    requires c < words.Length0 && r < words.Length1
    ensures Offset(c, r, words.Length0) + BYTES_PER_WORD <= |Printed(words, words.Length1)|
    ensures BigEndian(Printed(words, words.Length1)[Offset(c, r, words.Length0)..Offset(c, r, words.Length0) + BYTES_PER_WORD]) == words[c, r]
  {
    PrintedLayout(words, words.Length1, c, r);
    WordBytesSpell(words[c, r]);
  }

  /** compress40's two halves fit: what printCompressedImage writes,
      readInCompressed reads back as the same grid of words. */
  method PrintThenRead(words: array2<Word32>) returns (decoded: Result<array2<Word32>, ReadError>)
    ensures decoded.Ok?
    ensures decoded.value.Length0 == words.Length0 && decoded.value.Length1 == words.Length1
    ensures forall c, r :: 0 <= c < words.Length0 && 0 <= r < words.Length1 ==> decoded.value[c, r] == words[c, r]
  {
    var header, output := PrintCompressedImage(words);
    PrintedStartsWithNewline(words, words.Length1);
    assert header.0 / 2 == words.Length0 && header.1 / 2 == words.Length1;
    decoded := ReadInCompressed(Some(header), output);
    assert decoded.Ok?;
    forall c, r | 0 <= c < words.Length0 && 0 <= r < words.Length1
      ensures decoded.value[c, r] == words[c, r]
    {
      assert Decoded(decoded.value, output, c, r);
      PrintedDecodes(words, c, r);
    }
  }
}
