/** The hand-written Base64 codec (class `net.kuralab.codec.Base64`).

    Encoding spells every byte out as eight binary digits, appends 1 to 6 zero
    digits, reads the digit text six at a time as indices into the 64-symbol
    table and appends 1 to 4 `=`. Decoding spells every table symbol out as six
    binary digits, skipping every other character, and reads the digit text
    eight at a time. The source builds these digit texts in `StringBuffer`s;
    here they are sequences of `Bit`, built by the same loops. */
module Base64 {
  import opened JavaTypes

  /** One binary digit of the intermediate digit text. */
  type Bit = x: int | 0 <= x < 2

  // ---------------------------------------------------------------------------
  // The table
  // ---------------------------------------------------------------------------

  /** The symbol at table position `i`: 'A'..'Z', then 'a'..'z', then '0'..'9',
      then '+' and '/'. */
  function Symbol(i: int): char
    requires 0 <= i < 64
  {
    if i < 26 then (i + 'A' as int) as char
    else if i < 52 then (i - 26 + 'a' as int) as char
    else if i < 62 then (i - 52 + '0' as int) as char
    else if i == 62 then '+'
    else '/'
  }

  /** The standard alphabet of section 4 of RFC 4648, symbol by symbol:
      "ABCDEFGHIJKLMNOPQRSTUVWXYZabcdefghijklmnopqrstuvwxyz0123456789+/". */
  function StandardAlphabet(): string
  {
    seq(64, Symbol)
  }

  /** BASE64_TABLE, the codec's 64-entry table. */
  const BASE64_TABLE: string := StandardAlphabet()

  /** The padding character appended by `encode`. */
  const PAD: char := '='

  /** The position of `c` in the table, or -1 when `c` is not a table symbol. */
  function SymbolIndex(c: char): (r: int)
    ensures -1 <= r < 64
  {
    if 'A' <= c <= 'Z' then c as int - 'A' as int
    else if 'a' <= c <= 'z' then c as int - 'a' as int + 26
    else if '0' <= c <= '9' then c as int - '0' as int + 52
    else if c == '+' then 62
    else if c == '/' then 63
    else -1
  }

  /** `SymbolIndex` inverts the table: the symbol at position `i` is found at
      position `i` and nowhere else, a position found holds the character looked
      up, and a character is found exactly when it occurs in the table. */
  lemma TableIndex()
    ensures |BASE64_TABLE| == 64
    ensures forall i :: 0 <= i < 64 ==> SymbolIndex(BASE64_TABLE[i]) == i
    ensures forall c :: SymbolIndex(c) >= 0 ==> BASE64_TABLE[SymbolIndex(c)] == c
    ensures forall c :: c in BASE64_TABLE <==> SymbolIndex(c) >= 0
  {
    forall i | 0 <= i < 64 ensures SymbolIndex(BASE64_TABLE[i]) == i {
      assert BASE64_TABLE[i] == Symbol(i);
    }
    forall c | SymbolIndex(c) >= 0 ensures BASE64_TABLE[SymbolIndex(c)] == c {
      assert BASE64_TABLE[SymbolIndex(c)] == Symbol(SymbolIndex(c));
    }
  }

  // ---------------------------------------------------------------------------
  // Binary digit texts
  // ---------------------------------------------------------------------------

  function Pow2(n: nat): (p: nat)
    ensures p >= 1
  {
    if n == 0 then 1 else 2 * Pow2(n - 1)
  }

  lemma Pow2Facts()
    ensures Pow2(1) == 2 && Pow2(4) == 16 && Pow2(6) == 64
  {
    assert Pow2(2) == 4;
    assert Pow2(3) == 8;
    assert Pow2(5) == 32;
  }

  /** The number a digit text denotes, most significant digit first
      (`Integer.parseInt(bits, 2)`). */
  function BitsValue(bits: seq<Bit>): nat
  {
    if bits == [] then 0 else 2 * BitsValue(bits[..|bits| - 1]) + bits[|bits| - 1]
  }

  /** A digit text denotes a number below two to the power of its width. */
  lemma {:induction false} BitsValueBound(bits: seq<Bit>)
    ensures BitsValue(bits) < Pow2(|bits|)
  {
    if bits != [] {
      BitsValueBound(bits[..|bits| - 1]);
    }
  }

  /** Four digits denote one hexadecimal digit, six digits one table position. */
  lemma DigitBounds(bits: seq<Bit>)
    ensures |bits| == 4 ==> BitsValue(bits) < 16
    ensures |bits| == 6 ==> BitsValue(bits) < 64
  {
    BitsValueBound(bits);
    Pow2Facts();
  }

  /** The `width` low-order binary digits of `v`, most significant first. */
  function FixedBits(v: nat, width: nat): (bits: seq<Bit>)
    ensures |bits| == width
  {
    if width == 0 then [] else FixedBits(v / 2, width - 1) + [v % 2]
  }

  /** A value that fits `width` digits is what its `width`-digit text denotes. */
  lemma {:induction false} FixedBitsValue(v: nat, width: nat)
    requires v < Pow2(width)
    ensures BitsValue(FixedBits(v, width)) == v
  {
    if width > 0 {
      var bits := FixedBits(v, width);
      FixedBitsValue(v / 2, width - 1);
      assert bits[..width - 1] == FixedBits(v / 2, width - 1);
    }
  }

  /** A digit text is the fixed-width text of its own value. */
  lemma {:induction false} FixedBitsOfValue(bits: seq<Bit>)
    ensures FixedBits(BitsValue(bits), |bits|) == bits
  {
    if bits != [] {
      var prefix := bits[..|bits| - 1];
      FixedBitsOfValue(prefix);
      assert bits == prefix + [bits[|bits| - 1]];
    }
  }

  /** `Integer.toBinaryString(v)`: the shortest digit text of `v`, which
      starts with 1 unless `v` is 0. */
  function BinaryString(v: nat): (bits: seq<Bit>)
    ensures |bits| >= 1
    ensures v == 0 ==> bits == [0]
    ensures v >= 1 ==> bits[0] == 1
  {
    if v < 2 then [v] else BinaryString(v / 2) + [v % 2]
  }

  /** `Integer.toBinaryString` denotes its argument. */
  lemma {:induction false} BinaryStringValue(v: nat)
    ensures BitsValue(BinaryString(v)) == v
  {
    if v >= 2 {
      BinaryStringValue(v / 2);
      var bits := BinaryString(v);
      assert bits[..|bits| - 1] == BinaryString(v / 2);
    }
  }

  /** The shortest text of a value below 2^width has at most `width` digits. */
  lemma {:induction false} BinaryStringWidth(v: nat, width: nat)
    requires 1 <= width && v < Pow2(width)
    ensures |BinaryString(v)| <= width
  {
    if v >= 2 {
      Pow2Facts();
      if width == 1 {
        assert false;
      }
      BinaryStringWidth(v / 2, width - 1);
    }
  }

  /** `n` zero digits. */
  function Zeros(n: nat): (bits: seq<Bit>)
  {
    seq(n, _ => 0)
  }

  lemma DoubleFactor(x: int, p: int)
    ensures 2 * (x * p) == x * (2 * p)
  {
  }

  lemma MulZero(p: int)
    ensures 0 * p == 0
  {
  }

  /** The value of two digit texts written one after the other. */
  lemma {:induction false} BitsValueConcat(a: seq<Bit>, b: seq<Bit>)
    ensures BitsValue(a + b) == BitsValue(a) * Pow2(|b|) + BitsValue(b)
  {
    if b == [] {
      assert a + b == a;
    } else {
      var b', last := b[..|b| - 1], b[|b| - 1];
      BitsValueConcat(a, b');
      assert (a + b)[..|a + b| - 1] == a + b';
      var x, y, p := BitsValue(a), BitsValue(b'), Pow2(|b'|);
      assert BitsValue(a + b) == 2 * (x * p + y) + last;
      assert BitsValue(b) == 2 * y + last;
      DoubleFactor(x, p);
    }
  }

  /** Zero digits denote zero. */
  lemma {:induction false} ZerosValue(n: nat)
    ensures BitsValue(Zeros(n)) == 0
  {
    if n > 0 {
      assert Zeros(n)[..n - 1] == Zeros(n - 1);
      ZerosValue(n - 1);
    }
  }

  /** Zero digits in front of a digit text do not change its value. */
  lemma LeadingZeros(n: nat, bits: seq<Bit>)
    ensures BitsValue(Zeros(n) + bits) == BitsValue(bits)
  {
    BitsValueConcat(Zeros(n), bits);
    ZerosValue(n);
    MulZero(Pow2(|bits|));
  }

  /** Left-padding the shortest text of `v` with zeros to `width` digits gives
      the `width`-digit text of `v`. */
  lemma PaddedBinaryString(v: nat, width: nat)
    requires 1 <= width && v < Pow2(width)
    ensures |BinaryString(v)| <= width
    ensures Zeros(width - |BinaryString(v)|) + BinaryString(v) == FixedBits(v, width)
  {
    BinaryStringWidth(v, width);
    var b := BinaryString(v);
    var padded := Zeros(width - |b|) + b;
    LeadingZeros(width - |b|, b);
    BinaryStringValue(v);
    FixedBitsOfValue(padded);
  }

  /** The digit-padding loops of `encode` and `decode`:
      `Integer.toBinaryString(v)` with "0" prepended until it has `width` digits. */
  method PaddedBinary(v: nat, width: nat) returns (bits: seq<Bit>)
    requires 1 <= width && v < Pow2(width)
    ensures bits == FixedBits(v, width)
  {
    PaddedBinaryString(v, width);
    bits := BinaryString(v);
    var padding := width - |bits|;
    for i := 0 to padding
      invariant bits == Zeros(i) + BinaryString(v)
    {
      bits := [0] + bits;
      assert Zeros(i + 1) == [0] + Zeros(i);
    }
  }

  // ---------------------------------------------------------------------------
  // encode
  // ---------------------------------------------------------------------------

  /** `encode` can spell a byte out only when its unsigned value has two
      hexadecimal digits: for a value below 0x10 `toHexString` yields one digit
      and `substring(1, 2)` throws. */
  predicate Encodable(binary: seq<JByte>)
  {
    forall i :: 0 <= i < |binary| ==> Unsigned(binary[i]) >= 0x10
  }

  /** The eight digits a byte contributes: its two hexadecimal digits, four
      binary digits each. */
  function ByteBits(b: JByte): (bits: seq<Bit>)
    ensures |bits| == 8
  {
    var s := Unsigned(b);
    FixedBits(s / 16, 4) + FixedBits(s % 16, 4)
  }

  /** The eight digits of a byte denote its unsigned value, and their two
      halves its two hexadecimal digits. */
  lemma ByteBitsValue(b: JByte)
    ensures BitsValue(ByteBits(b)) == Unsigned(b)
    ensures BitsValue(ByteBits(b)[..4]) == Unsigned(b) / 16
    ensures BitsValue(ByteBits(b)[4..]) == Unsigned(b) % 16
  {
    var s := Unsigned(b);
    var high, low := FixedBits(s / 16, 4), FixedBits(s % 16, 4);
    Pow2Facts();
    FixedBitsValue(s / 16, 4);
    FixedBitsValue(s % 16, 4);
    BitsValueConcat(high, low);
    assert ByteBits(b)[..4] == high;
    assert ByteBits(b)[4..] == low;
  }

  /** The digit text of a byte array: each byte's eight digits in array order. */
  function BytesBits(binary: seq<JByte>): (bits: seq<Bit>)
    ensures |bits| == 8 * |binary|
  {
    if binary == [] then []
    else BytesBits(binary[..|binary| - 1]) + ByteBits(binary[|binary| - 1])
  }

  /** One more byte appends its eight digits. */
  lemma BytesBitsStep(binary: seq<JByte>, k: nat)
    requires k < |binary|
    ensures BytesBits(binary[..k + 1]) == BytesBits(binary[..k]) + ByteBits(binary[k])
  {
    assert binary[..k + 1][..k] == binary[..k];
  }

  /** The first `n` table symbols of a digit text, one symbol per six digits:
      symbol `k` is the table entry at the position digits `6k .. 6k + 5`
      denote. */
  function Symbols(bits: seq<Bit>, n: nat): (text: string)
    requires 6 * n <= |bits|
    ensures |text| == n
  {
    if n == 0 then []
    else
      var group := bits[6 * (n - 1)..6 * n];
      DigitBounds(group);
      Symbols(bits, n - 1) + [BASE64_TABLE[BitsValue(group)]]
  }

  /** Symbol `k` of `Symbols(bits, n)` is the table entry at the position its
      six digits denote; in particular it is a table symbol. */
  lemma {:induction false} SymbolsAt(bits: seq<Bit>, n: nat, k: nat)
    requires 6 * n <= |bits| && k < n
    ensures BitsValue(bits[6 * k..6 * k + 6]) < 64
    ensures Symbols(bits, n)[k] == BASE64_TABLE[BitsValue(bits[6 * k..6 * k + 6])]
    ensures Symbols(bits, n)[k] in BASE64_TABLE
  {
    DigitBounds(bits[6 * k..6 * k + 6]);
    if k < n - 1 {
      SymbolsAt(bits, n - 1, k);
    }
  }

  /** `n` padding characters. */
  function Pads(n: nat): (text: string)
  {
    seq(n, _ => PAD)
  }

  /** Division by six, as the sextet steps of `encode` use it. */
  lemma Sextets(x: nat, i: nat)
    ensures (x + (6 - x % 6)) % 6 == 0
    ensures x % 6 == 0 ==> 6 * (x / 6) == x
    ensures i < x / 6 ==> 6 * i + 6 <= x
    ensures (x + (6 - x % 6)) / 6 == x / 6 + 1
  {
  }

  /** Division by four, as the `=` padding of `encode` uses it. */
  lemma Quads(x: nat)
    ensures (x + (4 - x % 4)) % 4 == 0
    ensures 1 <= 4 - x % 4 <= 4
  {
  }

  /** Division by eight, as the byte steps of `decode` use it. */
  lemma Octets(x: nat, i: nat)
    ensures i < x / 8 ==> 8 * i + 8 <= x
  {
  }

  /** A digit text followed by the 1 to 6 zero digits that bring its length to
      a multiple of six. */
  function SextetPadded(bits: seq<Bit>): (padded: seq<Bit>)
    ensures |padded| % 6 == 0 && 6 * (|padded| / 6) == |padded|
    ensures |bits| < |padded| <= |bits| + 6
  {
    Sextets(|bits|, 0);
    Sextets(|bits| + (6 - |bits| % 6), 0);
    bits + Zeros(6 - |bits| % 6)
  }

  /** What `encode(binary)` returns, or the exception it throws. */
  function Encoded(binary: seq<JByte>): (r: Result<string>)
    ensures r.Failure? <==> !Encodable(binary)
    ensures r.Failure? ==> r.error == StringIndexOutOfBounds
  {
    if !Encodable(binary) then Failure(StringIndexOutOfBounds)
    else
      var padded := SextetPadded(BytesBits(binary));
      var symbols := Symbols(padded, |padded| / 6);
      Success(symbols + Pads(4 - |symbols| % 4))
  }

  /** The first loop of `Base64.encode`: spell every byte out as its two
      hexadecimal digits of four binary digits each, throwing on the first
      byte whose hexadecimal text has a single digit. */
  method SpellBytes(binary: seq<JByte>) returns (r: Result<seq<Bit>>)
    ensures Encodable(binary) ==> r == Success(BytesBits(binary))
    ensures !Encodable(binary) ==> r == Failure(StringIndexOutOfBounds)
  {
    var buffer: seq<Bit> := [];
    for k := 0 to |binary|
      invariant forall j :: 0 <= j < k ==> Unsigned(binary[j]) >= 0x10
      invariant buffer == BytesBits(binary[..k])
    {
      var s := binary[k] as int;
      if s < 0 {
        s := s + 256;
      }
      if s < 0x10 {
        // the hexadecimal text has one digit: substring(1, 2) throws
        assert Unsigned(binary[k]) < 0x10;
        return Failure(StringIndexOutOfBounds);
      }
      var bitPart1 := PaddedBinary(s / 16, 4);
      var bitPart2 := PaddedBinary(s % 16, 4);
      BytesBitsStep(binary, k);
      buffer := buffer + (bitPart1 + bitPart2);
    }
    assert binary[..|binary|] == binary;
    return Success(buffer);
  }

  /** The third loop of `Base64.encode`: one table symbol per six digits. */
  method SymbolText(buffer: seq<Bit>) returns (result: string)
    requires |buffer| % 6 == 0
    ensures result == Symbols(buffer, |buffer| / 6)
  {
    result := [];
    for i := 0 to |buffer| / 6
      invariant 6 * i <= |buffer|
      invariant result == Symbols(buffer, i)
    {
      Sextets(|buffer|, i);
      var index := BitsValue(buffer[i * 6..(i + 1) * 6]);
      DigitBounds(buffer[i * 6..(i + 1) * 6]);
      result := result + [BASE64_TABLE[index]];
    }
  }

  /** `Base64.encode`: spell the bytes out in binary digits, pad the digits to a
      multiple of six (always adding at least one), map each six digits to a
      table symbol, then pad with `=` to a multiple of four (always adding at
      least one). */
  method Encode(binary: seq<JByte>) returns (r: Result<string>)
    ensures r == Encoded(binary)
  {
    var spelled := SpellBytes(binary);
    if spelled.Failure? {
      return Failure(spelled.error);
    }
    var buffer := spelled.value;
    ghost var bits := buffer;

    var bitsPadding := 6 - |buffer| % 6;
    for i := 0 to bitsPadding
      invariant buffer == bits + Zeros(i)
    {
      buffer := buffer + [0];
      assert Zeros(i + 1) == Zeros(i) + [0];
    }
    assert buffer == SextetPadded(bits);

    var result := SymbolText(buffer);
    ghost var symbols := result;

    var resultPadding := 4 - |result| % 4;
    for i := 0 to resultPadding
      invariant result == symbols + Pads(i)
    {
      result := result + [PAD];
      assert Pads(i + 1) == Pads(i) + [PAD];
    }
    r := Success(result);
  }

  // ---------------------------------------------------------------------------
  // decode
  // ---------------------------------------------------------------------------

  /** The digits one character contributes: the six-digit text of its table
      position, or nothing for a character outside the table (`=` included). */
  function CharBits(c: char): (bits: seq<Bit>)
  {
    if SymbolIndex(c) >= 0 then FixedBits(SymbolIndex(c), 6) else []
  }

  /** The digit text `decode` builds from `data`. */
  function DecodeBits(data: string): (bits: seq<Bit>)
  {
    if data == [] then []
    else DecodeBits(data[..|data| - 1]) + CharBits(data[|data| - 1])
  }

  /** The byte `decode` reads from digits `8 * i .. 8 * i + 7`: two hexadecimal
      digits of four binary digits each, parsed in base 16 and cast to `byte`. */
  function ByteAt(bits: seq<Bit>, i: nat): (b: JByte)
    requires 8 * i + 8 <= |bits|
    ensures Unsigned(b) == BitsValue(bits[8 * i..8 * i + 8])
  {
    var hexPart1 := bits[8 * i..8 * i + 4];
    var hexPart2 := bits[8 * i + 4..8 * i + 8];
    DigitBounds(hexPart1);
    DigitBounds(hexPart2);
    assert bits[8 * i..8 * i + 8] == hexPart1 + hexPart2;
    BitsValueConcat(hexPart1, hexPart2);
    Pow2Facts();
    ToByte(16 * BitsValue(hexPart1) + BitsValue(hexPart2))
  }

  /** What `decode(data)` returns: one byte per eight digits; trailing digits
      that do not fill a byte are dropped. */
  function Decoded(data: string): (r: seq<JByte>)
    ensures |r| == |DecodeBits(data)| / 8
    ensures forall i :: 0 <= i < |r| ==>
      8 * i + 8 <= |DecodeBits(data)|
      && Unsigned(r[i]) == BitsValue(DecodeBits(data)[8 * i..8 * i + 8])
  {
    var bits := DecodeBits(data);
    seq(|bits| / 8, i requires 0 <= i < |bits| / 8 =>
      Octets(|bits|, i); ByteAt(bits, i))
  }

  /** The inner loop of `Base64.decode`: scan all 64 table positions for `c`
      and spell every position where it is found out in six binary digits. */
  method SymbolDigits(c: char) returns (bits: seq<Bit>)
    ensures bits == CharBits(c)
  {
    TableIndex();
    bits := [];
    for index := 0 to |BASE64_TABLE|
      invariant bits == if 0 <= SymbolIndex(c) < index then CharBits(c) else []
    {
      if BASE64_TABLE[index] == c {
        Pow2Facts();
        var bit := PaddedBinary(index, 6);
        bits := bits + bit;
      }
    }
  }

  /** `Base64.decode`: look every character up in the table, spell the
      positions found out in six binary digits each, then fill a byte array
      from the digits eight at a time. */
  method Decode(data: string) returns (r: seq<JByte>)
    ensures r == Decoded(data)
  {
    var buffer: seq<Bit> := [];
    for k := 0 to |data|
      invariant buffer == DecodeBits(data[..k])
    {
      var bit := SymbolDigits(data[k]);
      buffer := buffer + bit;
      assert data[..k + 1][..k] == data[..k];
    }
    assert data[..|data|] == data;

    var result := new JByte[|buffer| / 8];
    for i := 0 to |buffer| / 8
      invariant forall j :: 0 <= j < i ==> 8 * j + 8 <= |buffer| && result[j] == ByteAt(buffer, j)
    {
      Octets(|buffer|, i);
      var hexPart1 := BitsValue(buffer[i * 8..i * 8 + 4]);
      var hexPart2 := BitsValue(buffer[i * 8 + 4..i * 8 + 8]);
      DigitBounds(buffer[i * 8..i * 8 + 4]);
      DigitBounds(buffer[i * 8 + 4..i * 8 + 8]);
      result[i] := ToByte(16 * hexPart1 + hexPart2);
    }
    r := result[..];
  }

  // ---------------------------------------------------------------------------
  // Properties
  // ---------------------------------------------------------------------------

  /** Byte `i` of the input owns digits `8 * i .. 8 * i + 7` of the digit text. */
  lemma {:induction false} BytesBitsAt(binary: seq<JByte>, i: nat)
    requires i < |binary|
    ensures BytesBits(binary)[8 * i..8 * i + 8] == ByteBits(binary[i])
  {
    var init := binary[..|binary| - 1];
    if i < |init| {
      BytesBitsAt(init, i);
      assert BytesBits(binary)[8 * i..8 * i + 8] == BytesBits(init)[8 * i..8 * i + 8];
    } else {
      assert BytesBits(binary)[8 * i..8 * i + 8] == ByteBits(binary[i]);
    }
  }

  /** One more character appends its digits. */
  lemma DecodeBitsSnoc(s: string, c: char)
    ensures DecodeBits(s + [c]) == DecodeBits(s) + CharBits(c)
  {
    assert (s + [c])[..|s|] == s;
  }

  /** The digits of a concatenation are the concatenated digits. */
  lemma {:induction false} DecodeBitsAppend(a: string, b: string)
    ensures DecodeBits(a + b) == DecodeBits(a) + DecodeBits(b)
  {
    if b == [] {
      assert a + b == a;
    } else {
      var b', c := b[..|b| - 1], b[|b| - 1];
      SnocSplit(a, b);
      DecodeBitsAppend(a, b');
      DecodeBitsSnoc(a + b', c);
      DecodeBitsSnoc(b', c);
      AppendAssoc(DecodeBits(a), DecodeBits(b'), CharBits(c));
    }
  }

  lemma SnocSplit(a: string, b: string)
    requires b != []
    ensures b == b[..|b| - 1] + [b[|b| - 1]]
    ensures a + b == (a + b[..|b| - 1]) + [b[|b| - 1]]
  {
  }

  lemma AppendAssoc(x: seq<Bit>, y: seq<Bit>, z: seq<Bit>)
    ensures (x + y) + z == x + (y + z)
  {
  }

  /** A table symbol contributes the six digits of its position. */
  lemma SymbolBits(bits: seq<Bit>)
    requires |bits| == 6
    ensures BitsValue(bits) < 64
    ensures CharBits(BASE64_TABLE[BitsValue(bits)]) == bits
  {
    DigitBounds(bits);
    TableIndex();
    FixedBitsOfValue(bits);
  }

  /** Decoding the first `n` symbols of a digit text gives its first `6n`
      digits back. */
  lemma {:induction false} DecodeSymbols(bits: seq<Bit>, n: nat)
    requires 6 * n <= |bits|
    ensures DecodeBits(Symbols(bits, n)) == bits[..6 * n]
  {
    if n > 0 {
      var group := bits[6 * (n - 1)..6 * n];
      DecodeSymbols(bits, n - 1);
      SymbolBits(group);
      var text := Symbols(bits, n);
      assert text[..n - 1] == Symbols(bits, n - 1);
      assert bits[..6 * n] == bits[..6 * (n - 1)] + group;
    }
  }

  /** `=` contributes no digits. */
  lemma {:induction false} DecodePads(n: nat)
    ensures DecodeBits(Pads(n)) == []
  {
    if n > 0 {
      assert Pads(n)[..n - 1] == Pads(n - 1);
      DecodePads(n - 1);
    }
  }

  /** Decoding all the symbols of a digit text gives the digit text back. */
  lemma DecodeAllSymbols(bits: seq<Bit>)
    requires |bits| % 6 == 0
    ensures 6 * (|bits| / 6) == |bits|
    ensures DecodeBits(Symbols(bits, |bits| / 6)) == bits
  {
    Sextets(|bits|, 0);
    DecodeSymbols(bits, |bits| / 6);
    assert bits[..|bits|] == bits;
  }

  /** The digits `decode` recovers from `encode`'s output: the input's digits
      followed by the 1 to 6 zero digits `encode` appended. */
  lemma EncodedDigits(binary: seq<JByte>)
    requires Encodable(binary)
    ensures Encoded(binary).Success?
    ensures DecodeBits(Encoded(binary).value) == SextetPadded(BytesBits(binary))
  {
    var padded := SextetPadded(BytesBits(binary));
    var symbols := Symbols(padded, |padded| / 6);
    var pads := Pads(4 - |symbols| % 4);
    assert Encoded(binary).value == symbols + pads;
    DecodeBitsAppend(symbols, pads);
    DecodeAllSymbols(padded);
    DecodePads(|pads|);
  }

  /** Fewer than eight extra digits never fill another byte. */
  lemma WholeBytes(n: nat, p: nat)
    requires p < 8
    ensures (8 * n + p) / 8 == n
  {
  }

  /** Byte `i` of an encodable array is read back from its eight digits,
      whatever digits follow them. */
  lemma RoundTripByte(binary: seq<JByte>, tail: seq<Bit>, i: nat)
    requires i < |binary|
    ensures 8 * i + 8 <= |BytesBits(binary) + tail|
    ensures ByteAt(BytesBits(binary) + tail, i) == binary[i]
  {
    BytesBitsAt(binary, i);
    ByteBitsValue(binary[i]);
    ByteHalves(BytesBits(binary), tail, 8 * i);
    ToByteUnsigned(binary[i]);
  }

  /** The two hexadecimal halves of eight digits inside a longer text. */
  lemma ByteHalves(s: seq<Bit>, t: seq<Bit>, lo: nat)
    requires lo + 8 <= |s|
    ensures (s + t)[lo..lo + 4] == s[lo..lo + 8][..4]
    ensures (s + t)[lo + 4..lo + 8] == s[lo..lo + 8][4..]
  {
  }

  /** decode(encode(b)) == b for every byte array `encode` accepts: the 1 to 6
      extra zero digits never fill a byte and are dropped again. */
  lemma RoundTrip(binary: seq<JByte>)
    requires Encodable(binary)
    ensures Encoded(binary).Success?
    ensures Decoded(Encoded(binary).value) == binary
  {
    EncodedDigits(binary);
    var bits := BytesBits(binary);
    var tail := Zeros(6 - |bits| % 6);
    var digits := DecodeBits(Encoded(binary).value);
    assert digits == bits + tail;
    WholeBytes(|binary|, |tail|);
    var r := Decoded(Encoded(binary).value);
    assert |r| == |binary|;
    forall i | 0 <= i < |binary| ensures r[i] == binary[i] {
      RoundTripByte(binary, tail, i);
    }
  }

  /** The shape of `encode`'s output: floor(8n/6) + 1 table symbols for n bytes
      (one more than RFC 4648 asks for when 8n is a multiple of 6), then 1 to 4
      `=`, for a total length that is a multiple of four. */
  lemma EncodedShape(binary: seq<JByte>)
    requires Encodable(binary)
    ensures Encoded(binary).Success?
    ensures var text := Encoded(binary).value;
      var n := 8 * |binary| / 6 + 1;
      |text| % 4 == 0 && n + 1 <= |text| <= n + 4
      && (forall k :: 0 <= k < n ==> text[k] in BASE64_TABLE)
      && (forall k :: n <= k < |text| ==> text[k] == PAD)
  {
    var padded := SextetPadded(BytesBits(binary));
    var n := |padded| / 6;
    Sextets(8 * |binary|, 0);
    Quads(n);
    var symbols := Symbols(padded, n);
    var text := symbols + Pads(4 - n % 4);
    assert Encoded(binary).value == text;
    forall k | 0 <= k < n ensures text[k] in BASE64_TABLE {
      SymbolsAt(padded, n, k);
    }
  }

  /** `encode` of the empty array is "A===". */
  lemma EncodedEmpty()
    ensures Encoded([]) == Success("A===")
  {
    var padded := SextetPadded(BytesBits([]));
    assert padded == Zeros(6);
    assert padded[0..6] == Zeros(6);
    ZerosValue(6);
    assert BASE64_TABLE[0] == Symbol(0) == 'A';
    assert Symbols(padded, 1) == Symbols(padded, 0) + [BASE64_TABLE[0]];
    assert Pads(3) == "===";
    assert Encoded([]).value == Symbols(padded, 1) + Pads(3);
    assert Symbols(padded, 1) == "A";
    assert "A" + "===" == "A===";
  }

  /** The table symbols of a text, in order; everything else dropped. */
  function TableSymbols(data: string): (symbols: string)
    ensures forall k :: 0 <= k < |symbols| ==> SymbolIndex(symbols[k]) >= 0
  {
    if data == [] then []
    else
      var c := data[|data| - 1];
      TableSymbols(data[..|data| - 1]) + (if SymbolIndex(c) >= 0 then [c] else [])
  }

  /** `decode` ignores every character outside the table, `=` included. */
  lemma {:induction false} DecodeIgnoresOthers(data: string)
    ensures DecodeBits(data) == DecodeBits(TableSymbols(data))
    ensures Decoded(data) == Decoded(TableSymbols(data))
  {
    if data != [] {
      var init := data[..|data| - 1];
      var c := data[|data| - 1];
      DecodeIgnoresOthers(init);
      var tail := if SymbolIndex(c) >= 0 then [c] else [];
      DecodeBitsAppend(TableSymbols(init), tail);
      DecodeBitsSnoc([], c);
      assert [] + [c] == [c];
    }
  }

  /** The digit text `decode` builds is the six-digit table positions of the
      table symbols of its input, concatenated in order. */
  lemma {:induction false} DecodeBitsLayout(data: string)
    ensures var symbols := TableSymbols(data);
      |DecodeBits(data)| == 6 * |symbols|
      && forall j :: 0 <= j < |symbols| ==>
           BitsValue(DecodeBits(data)[6 * j..6 * j + 6]) == SymbolIndex(symbols[j])
  {
    if data != [] {
      var init := data[..|data| - 1];
      var c := data[|data| - 1];
      DecodeBitsLayout(init);
      var symbols := TableSymbols(data);
      var bits := DecodeBits(data);
      var initBits := DecodeBits(init);
      var initSymbols := TableSymbols(init);
      if SymbolIndex(c) >= 0 {
        FixedBitsValue(SymbolIndex(c), 6) by { Pow2Facts(); }
      }
      forall j | 0 <= j < |symbols|
        ensures BitsValue(bits[6 * j..6 * j + 6]) == SymbolIndex(symbols[j])
      {
        if j < |initSymbols| {
          assert bits[6 * j..6 * j + 6] == initBits[6 * j..6 * j + 6];
          assert symbols[j] == initSymbols[j];
        } else {
          assert bits[6 * j..6 * j + 6] == CharBits(c);
        }
      }
    }
  }

  /** `decode` returns floor(6k/8) bytes for k table symbols: the digits
      left over after the last whole byte are dropped. */
  lemma DecodedBytes(data: string)
    ensures |Decoded(data)| == 6 * |TableSymbols(data)| / 8
  {
    DecodeBitsLayout(data);
  }
}
