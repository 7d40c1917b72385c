/** The Base32 codec of src/zero-base32.ts: the alphabet and padding of
    section 6 of RFC 4648, an encoder that goes through a bit string, and the
    decoder exactly as written, which keeps a trailing slice of fewer than 8
    bits as one more byte. */
module Base32 {
  import opened Bits

  /** `Base32.BASE32_ALPHABET`: position `i` holds the character for the 5-bit value `i`. */
  const Alphabet: string := "ABCDEFGHIJKLMNOPQRSTUVWXYZ234567"

  /** The padding character. */
  const Pad: char := '='

  /** The value a character stands for: 'A'..'Z' are 0..25, '2'..'7' are 26..31. */
  function ValueOfChar(c: char): int
  {
    if 'A' <= c <= 'Z' then c as int - 'A' as int
    else if '2' <= c <= '7' then c as int - '2' as int + 26
    else -1
  }

  lemma AlphabetShape()
    ensures |Alphabet| == 32
    ensures Alphabet[0] == 'A' && Alphabet[26] == '2' && Alphabet[31] == '7'
    ensures forall i :: 0 <= i < |Alphabet| ==> ValueOfChar(Alphabet[i]) == i
    ensures forall i, j :: 0 <= i < j < |Alphabet| ==> Alphabet[i] != Alphabet[j]
    ensures Pad !in Alphabet
  {
    forall i | 0 <= i < |Alphabet| ensures ValueOfChar(Alphabet[i]) == i {
      if i < 26 {
        assert Alphabet[i] == ('A' as int + i) as char;
      } else {
        assert Alphabet[i] == ('2' as int + i - 26) as char;
      }
    }
  }

  /** `String.prototype.indexOf` for one character: the first position of `c`
      in `s`, or -1 when `c` does not occur. */
  function IndexOf(s: string, c: char): (r: int)
    ensures -1 <= r < |s|
    ensures r == -1 <==> c !in s
    ensures 0 <= r ==> s[r] == c && c !in s[..r]
  {
    if s == [] then -1
    else if s[0] == c then 0
    else
      var r := IndexOf(s[1..], c);
      assert s[1..] == s[1..][..];
      if r == -1 then -1 else r + 1
  }

  lemma IndexOfAlphabet(i: nat)
    requires i < |Alphabet|
    ensures IndexOf(Alphabet, Alphabet[i]) == i
  {
    AlphabetShape();
  }

  /** The alphabet characters by range: 'A'..'Z' and '2'..'7'. */
  predicate IsAlphabetChar(c: char)
  {
    'A' <= c <= 'Z' || '2' <= c <= '7'
  }

  lemma AlphabetAt(v: nat)
    requires v < 32
    ensures IsAlphabetChar(Alphabet[v]) && ValueOfChar(Alphabet[v]) == v
  {
    AlphabetShape();
  }

  /** A character is in the alphabet exactly when it lies in one of the two ranges. */
  lemma AlphabetRanges(c: char)
    ensures IsAlphabetChar(c) <==> c in Alphabet
  {
    AlphabetShape();
    if IsAlphabetChar(c) {
      var v := ValueOfChar(c);
      AlphabetAt(v);
      assert Alphabet[v] == c;
    }
  }

  /** `indexOf` finds an alphabet character at the position of its value. */
  lemma IndexOfChar(c: char)
    requires IsAlphabetChar(c)
    ensures IndexOf(Alphabet, c) == ValueOfChar(c)
  {
    var v := ValueOfChar(c);
    AlphabetAt(v);
    assert Alphabet[v] == c;
    IndexOfAlphabet(v);
  }

  // ---------------------------------------------------------------------------
  // Encoding

  /** How many characters `while (len % m !== 0) append` adds to a string of length `len`. */
  function PadLength(len: nat, m: nat): nat
    requires m > 0
  {
    if len % m == 0 then 0 else m - len % m
  }

  /** Appending `z <= PadLength(len, m)` characters reaches a multiple of `m`
      exactly when `z` is `PadLength(len, m)`: the padding loops stop there. */
  lemma PadLengthStops(len: nat, m: nat, z: nat)
    requires m > 0 && z <= PadLength(len, m)
    ensures (len + z) % m == 0 <==> z == PadLength(len, m)
  {
    var q, r := len / m, len % m;
    assert len == m * q + r;
    if r == 0 {
      DivModUnique(len + z, m, q, 0);
    } else if r + z == m {
      assert len + z == m * (q + 1);
      DivModUnique(len + z, m, q + 1, 0);
    } else {
      DivModUnique(len + z, m, q, r + z);
    }
  }

  /** Number of alphabet characters that encode `n` bytes: the ceiling of 8n/5. */
  function DataLength(n: nat): nat
  {
    (8 * n + 4) / 5
  }

  /** A run of `n` padding characters. */
  function Pads(n: nat): (r: string)
    ensures |r| == n && forall i :: 0 <= i < n ==> r[i] == Pad
  {
    seq(n, _ => Pad)
  }

  /** The alphabet characters for the consecutive 5-bit groups of `bits`. */
  function Groups(bits: seq<bool>): (r: string)
    requires |bits| % 5 == 0
    ensures |r| == |bits| / 5

  {
    if bits == [] then []
    else Groups(bits[..|bits| - 5]) + [Alphabet[FromBits(bits[|bits| - 5..])]]
  }

  /** The bit string the encoder splits into groups: every byte as 8 bits, most
      significant first, then zero bits up to a multiple of 5. */
  function EncoderBits(bytes: seq<Byte>): (r: seq<bool>)
    ensures |r| == 5 * DataLength(|bytes|) && |r| % 5 == 0
  {
    DataLengthPad(|bytes|);
    DivModUnique(5 * DataLength(|bytes|), 5, DataLength(|bytes|), 0);
    Pack(bytes, 8) + Zeros(PadLength(8 * |bytes|, 5))
  }

  /** The `8n` bits of `n` bytes and the zero bits after them make ceil(8n/5) groups. */
  lemma DataLengthPad(n: nat)
    ensures 8 * n + PadLength(8 * n, 5) == 5 * DataLength(n)
  {
    var q, r := 8 * n / 5, 8 * n % 5;
    assert 8 * n == 5 * q + r;
    if r == 0 {
      DivModUnique(8 * n + 4, 5, q, 4);
    } else {
      DivModUnique(8 * n + 4, 5, q + 1, r - 1);
    }
  }

  /** What `Base32.encode` returns for `bytes`. */
  function Encoding(bytes: seq<Byte>): (r: string)
    ensures |r| % 8 == 0
  {
    var data := Groups(EncoderBits(bytes));
    PadLengthStops(|data|, 8, PadLength(|data|, 8));
    data + Pads(PadLength(|data|, 8))
  }

  /** `Base32.encode`, one step of the source per call. */
  method Encode(buffer: seq<Byte>) returns (encoded: string)
    ensures encoded == Encoding(buffer)
  {
    var binary := BinaryOfBytes(buffer);
    binary := PadBinary(buffer, binary);
    encoded := CharsOfBinary(binary);
    encoded := PadEncoded(encoded);
  }

  /** Lines 38-40: every byte written as 8 bits, most significant first. */
  method BinaryOfBytes(buffer: seq<Byte>) returns (binary: seq<bool>)
    ensures binary == Pack(buffer, 8)
  {
    binary := [];
    for k := 0 to |buffer|
      invariant binary == Pack(buffer[..k], 8)
    {
      PackPrefix(buffer, 8, k);
      binary := binary + ToBits(buffer[k], 8);
    }
    assert buffer[..|buffer|] == buffer;
  }

  /** Lines 43-59: zero bits appended until the length is a multiple of 5. */
  method PadBinary(ghost buffer: seq<Byte>, unpadded: seq<bool>) returns (binary: seq<bool>)
    requires unpadded == Pack(buffer, 8)
    ensures binary == EncoderBits(buffer)
  {
    binary := unpadded;
    ghost var zeros := 0;
    while |binary| % 5 != 0
      invariant zeros <= PadLength(8 * |buffer|, 5)
      invariant binary == Pack(buffer, 8) + Zeros(zeros)
      decreases PadLength(8 * |buffer|, 5) - zeros
    {
      PadLengthStops(8 * |buffer|, 5, zeros);
      assert Zeros(zeros + 1) == Zeros(zeros) + [false];
      binary := binary + [false];
      zeros := zeros + 1;
    }
    PadLengthStops(8 * |buffer|, 5, zeros);
  }

  /** Lines 62-65: each 5-bit group mapped to its alphabet character. */
  method CharsOfBinary(binary: seq<bool>) returns (encoded: string)
    requires |binary| % 5 == 0
    ensures encoded == Groups(binary)
  {
    ghost var n := |binary| / 5;
    assert |binary| == 5 * n;
    encoded := [];
    var i := 0;
    ghost var g := 0;
    while i < |binary|
      invariant i == 5 * g && g <= n && i % 5 == 0
      invariant encoded == Groups(binary[..i])
    {
      var chunk := binary[i..i + 5];
      GroupsSnoc(binary, i, g);
      encoded := encoded + [Alphabet[FromBits(chunk)]];
      i := i + 5;
      g := g + 1;
    }
    assert binary[..i] == binary;
  }

  /** The groups of the first 5g + 5 bits are those of the first 5g bits and
      one more character. */
  lemma GroupsSnoc(bits: seq<bool>, i: nat, g: nat)
    requires i == 5 * g && i + 5 <= |bits| && i % 5 == 0
    ensures (i + 5) % 5 == 0
    ensures Groups(bits[..i + 5]) == Groups(bits[..i]) + [Alphabet[FromBits(bits[i..i + 5])]]
  {
    var front := bits[..i + 5];
    assert front[..i] == bits[..i] && front[i..] == bits[i..i + 5];
    DivModUnique(i + 5, 5, g + 1, 0);
  }

  /** Lines 68-85: '=' appended until the length is a multiple of 8. */
  method PadEncoded(data: string) returns (encoded: string)
    ensures encoded == data + Pads(PadLength(|data|, 8))
  {
    encoded := data;
    ghost var pads := 0;
    while |encoded| % 8 != 0
      invariant pads <= PadLength(|data|, 8)
      invariant encoded == data + Pads(pads)
      decreases PadLength(|data|, 8) - pads
    {
      PadLengthStops(|data|, 8, pads);
      assert Pads(pads + 1) == Pads(pads) + [Pad];
      encoded := encoded + [Pad];
      pads := pads + 1;
    }
    PadLengthStops(|data|, 8, pads);
  }

  /** Bit `p` of the input read as one bit string: the bit of weight
      2^(7 - p % 8) of byte `p / 8`, and zero past the last byte. */
  function InputBit(bytes: seq<Byte>, p: nat): bool
  {
    p < 8 * |bytes| && BitOf(bytes[p / 8], 7 - p % 8)
  }

  lemma {:induction false} GroupsAt(bits: seq<bool>, i: nat)
    requires |bits| % 5 == 0 && i < |bits| / 5
    ensures Groups(bits)[i] == Alphabet[FromBits(bits[5 * i .. 5 * i + 5])]
  {
    var front := bits[..|bits| - 5];
    assert Groups(bits) == Groups(front) + [Alphabet[FromBits(bits[|bits| - 5..])]];
    if i < |bits| / 5 - 1 {
      GroupsAt(front, i);
      assert front[5 * i .. 5 * i + 5] == bits[5 * i .. 5 * i + 5];
    } else {
      assert 5 * i == |bits| - 5;
      assert bits[5 * i .. 5 * i + 5] == bits[|bits| - 5..];
    }
  }

  lemma EncoderBitsAt(bytes: seq<Byte>, p: nat)
    requires p < |EncoderBits(bytes)|
    ensures EncoderBits(bytes)[p] == InputBit(bytes, p)
  {
    if p < 8 * |bytes| {
      var i := p / 8;
      PackSlice(bytes, 8, i);
      assert Pack(bytes, 8)[p] == Pack(bytes, 8)[8 * i .. 8 * i + 8][p % 8];
      ToBitsAt(bytes[i], 8, p % 8);
    }
  }

  function BitValue(b: bool): nat
  {
    if b then 1 else 0
  }

  /** The value of input bits `p .. p + n - 1` read as a binary number, most
      significant first. */
  function InputValue(bytes: seq<Byte>, p: nat, n: nat): (r: nat)
    ensures r < Pow(2, n)
  {
    if n == 0 then 0 else 2 * InputValue(bytes, p, n - 1) + BitValue(InputBit(bytes, p + n - 1))
  }

  /** The 5-bit value made of bits 5i..5i+4 of the input. */
  function GroupValue(bytes: seq<Byte>, i: nat): (r: nat)
    ensures r < 32
  {
    assert Pow(2, 5) == 32;
    InputValue(bytes, 5 * i, 5)
  }

  lemma GroupValueBits(bytes: seq<Byte>, i: nat)
    ensures GroupValue(bytes, i)
            == 16 * BitValue(InputBit(bytes, 5 * i)) + 8 * BitValue(InputBit(bytes, 5 * i + 1))
             + 4 * BitValue(InputBit(bytes, 5 * i + 2)) + 2 * BitValue(InputBit(bytes, 5 * i + 3))
             + BitValue(InputBit(bytes, 5 * i + 4))
  {
    var p := 5 * i;
    assert InputValue(bytes, p, 1) == BitValue(InputBit(bytes, p));
    assert InputValue(bytes, p, 2) == 2 * InputValue(bytes, p, 1) + BitValue(InputBit(bytes, p + 1));
    assert InputValue(bytes, p, 3) == 2 * InputValue(bytes, p, 2) + BitValue(InputBit(bytes, p + 2));
    assert InputValue(bytes, p, 4) == 2 * InputValue(bytes, p, 3) + BitValue(InputBit(bytes, p + 3));
  }

  /** A group whose bits all lie in a prefix of the input has the same value
      in the prefix as in the whole input. */
  lemma GroupValuePrefix(front: seq<Byte>, bytes: seq<Byte>, i: nat)
    requires |front| <= |bytes| && front == bytes[..|front|] && 5 * i + 5 <= 8 * |front|
    ensures GroupValue(front, i) == GroupValue(bytes, i)
  {
    GroupValueBits(front, i);
    GroupValueBits(bytes, i);
    forall p | 5 * i <= p < 5 * i + 5 ensures InputBit(front, p) == InputBit(bytes, p) {
      assert front[p / 8] == bytes[p / 8];
    }
  }

  /** Character `i` of the encoding is the alphabet entry for bits 5i..5i+4 of
      the input, most significant first, zero past the last byte. */
  lemma EncodingMsbFirst(bytes: seq<Byte>, i: nat)
    requires i < DataLength(|bytes|)
    ensures Encoding(bytes)[i] == Alphabet[GroupValue(bytes, i)]
  {
    var bits := EncoderBits(bytes);
    DivModUnique(|bits|, 5, DataLength(|bytes|), 0);
    GroupsAt(bits, i);
    forall p | 5 * i <= p < 5 * i + 5 ensures bits[p] == InputBit(bytes, p) {
      EncoderBitsAt(bytes, p);
    }
    FromBitsOfFive(bits[5 * i .. 5 * i + 5]);
    GroupValueBits(bytes, i);
  }

  /** The encoding of `n` bytes is ceil(8n/5) characters rounded up to a
      multiple of 8; no bytes give the empty string. */
  lemma EncodingLength(bytes: seq<Byte>)
    ensures |Encoding(bytes)| == 8 * ((DataLength(|bytes|) + 7) / 8)
    ensures |Encoding(bytes)| - DataLength(|bytes|) < 8
    ensures Encoding(bytes) == "" <==> bytes == []
  {
    var d := DataLength(|bytes|);
    assert |Groups(EncoderBits(bytes))| == d;
    var q, r := d / 8, d % 8;
    if r == 0 {
      DivModUnique(d + 7, 8, q, 7);
    } else {
      DivModUnique(d + 7, 8, q + 1, r - 1);
    }
  }

  /** The characters after the first ceil(8n/5), fewer than 8 of them, are '='. */
  lemma EncodingPads(bytes: seq<Byte>)
    ensures forall i :: DataLength(|bytes|) <= i < |Encoding(bytes)| ==> Encoding(bytes)[i] == Pad
  {
    EncodingLength(bytes);
  }

  /** The first ceil(8n/5) characters of the encoding are alphabet characters. */
  lemma EncodingAlphabet(bytes: seq<Byte>)
    ensures forall i :: 0 <= i < DataLength(|bytes|) ==> Encoding(bytes)[i] in Alphabet
  {
    EncodingLength(bytes);
    DivModUnique(|EncoderBits(bytes)|, 5, DataLength(|bytes|), 0);
    var data := Groups(EncoderBits(bytes));
    forall i | 0 <= i < |data| ensures Encoding(bytes)[i] in Alphabet {
      GroupsAt(EncoderBits(bytes), i);
    }
  }

  lemma {:induction false} FromBitsOfFive(b: seq<bool>)
    requires |b| == 5
    ensures FromBits(b) == (if b[0] then 16 else 0) + (if b[1] then 8 else 0)
                         + (if b[2] then 4 else 0) + (if b[3] then 2 else 0) + (if b[4] then 1 else 0)
  {
    assert b[..4][..3] == b[..3] && b[..3][..2] == b[..2] && b[..2][..1] == b[..1];
    assert FromBits(b[..1]) == (if b[0] then 1 else 0);
    assert FromBits(b[..2]) == 2 * FromBits(b[..1]) + (if b[1] then 1 else 0);
    assert FromBits(b[..3]) == 2 * FromBits(b[..2]) + (if b[2] then 1 else 0);
    assert FromBits(b[..4]) == 2 * FromBits(b[..3]) + (if b[3] then 1 else 0);
  }

  /** Position `i` of `x` holds what the character-wise description of the
      encoding of `bytes` puts there: the alphabet entry of group `i` in a
      data position, '=' after. */
  predicate EncodesAt(bytes: seq<Byte>, x: string, i: nat)
  {
    i < |x|
    && if i < DataLength(|bytes|) then x[i] == Alphabet[GroupValue(bytes, i)]
       else x[i] == Pad
  }

  lemma EncodingAt(bytes: seq<Byte>, x: string, i: nat)
    requires |x| == 8 * ((DataLength(|bytes|) + 7) / 8) && EncodesAt(bytes, x, i)
    ensures |Encoding(bytes)| == |x| && Encoding(bytes)[i] == x[i]
  {
    EncodingLength(bytes);
    if i < DataLength(|bytes|) {
      EncodingMsbFirst(bytes, i);
    } else {
      EncodingPads(bytes);
    }
  }

  // The RFC 4648 section 10 vectors below are proved in small steps (the bits
  // of each byte, the value of each group, each character, then the string)
  // so that every proof obligation stays small.

  /* The binary digits of the bytes of "foobar", from weight 2^7 down to 2^0. */
  lemma BitsOf66()
    ensures !BitOf(0x66, 7) && BitOf(0x66, 6) && BitOf(0x66, 5) && !BitOf(0x66, 4) && !BitOf(0x66, 3) && BitOf(0x66, 2) && BitOf(0x66, 1) && !BitOf(0x66, 0)
  {
  }

  lemma BitsOf6F()
    ensures !BitOf(0x6f, 7) && BitOf(0x6f, 6) && BitOf(0x6f, 5) && !BitOf(0x6f, 4) && BitOf(0x6f, 3) && BitOf(0x6f, 2) && BitOf(0x6f, 1) && BitOf(0x6f, 0)
  {
  }

  lemma BitsOf62()
    ensures !BitOf(0x62, 7) && BitOf(0x62, 6) && BitOf(0x62, 5) && !BitOf(0x62, 4) && !BitOf(0x62, 3) && !BitOf(0x62, 2) && BitOf(0x62, 1) && !BitOf(0x62, 0)
  {
  }

  lemma BitsOf61()
    ensures !BitOf(0x61, 7) && BitOf(0x61, 6) && BitOf(0x61, 5) && !BitOf(0x61, 4) && !BitOf(0x61, 3) && !BitOf(0x61, 2) && !BitOf(0x61, 1) && BitOf(0x61, 0)
  {
  }

  lemma BitsOf72()
    ensures !BitOf(0x72, 7) && BitOf(0x72, 6) && BitOf(0x72, 5) && BitOf(0x72, 4) && !BitOf(0x72, 3) && !BitOf(0x72, 2) && BitOf(0x72, 1) && !BitOf(0x72, 0)
  {
  }

  lemma EncodesAtData(bytes: seq<Byte>, x: string, i: nat, v: nat)
    requires i < DataLength(|bytes|) && GroupValue(bytes, i) == v && i < |x| && x[i] == Alphabet[v]
    ensures EncodesAt(bytes, x, i)
  {
  }

  lemma EncodesAtPad(bytes: seq<Byte>, x: string, i: nat)
    requires DataLength(|bytes|) <= i < |x| && x[i] == Pad
    ensures EncodesAt(bytes, x, i)
  {
  }

  /** Two strings of 8 characters that agree at every position are equal. */
  lemma SameChars8(e: string, x: string)
    requires |e| == 8 == |x|
    requires e[0] == x[0] && e[1] == x[1] && e[2] == x[2] && e[3] == x[3]
    requires e[4] == x[4] && e[5] == x[5] && e[6] == x[6] && e[7] == x[7]
    ensures e == x
  {
  }

  /** Two strings of 16 characters that agree at every position are equal. */
  lemma SameChars16(e: string, x: string)
    requires |e| == 16 == |x|
    requires e[0] == x[0] && e[1] == x[1] && e[2] == x[2] && e[3] == x[3]
    requires e[4] == x[4] && e[5] == x[5] && e[6] == x[6] && e[7] == x[7]
    requires e[8] == x[8] && e[9] == x[9] && e[10] == x[10] && e[11] == x[11]
    requires e[12] == x[12] && e[13] == x[13] && e[14] == x[14] && e[15] == x[15]
    ensures e == x
  {
  }

  /** A string of 8 characters that matches the character-wise description
      at every position is the encoding. */
  lemma EncodingOf8Chars(bytes: seq<Byte>, x: string)
    requires |x| == 8 && 0 < DataLength(|bytes|) <= 8
    requires EncodesAt(bytes, x, 0) && EncodesAt(bytes, x, 1) && EncodesAt(bytes, x, 2) && EncodesAt(bytes, x, 3)
    requires EncodesAt(bytes, x, 4) && EncodesAt(bytes, x, 5) && EncodesAt(bytes, x, 6) && EncodesAt(bytes, x, 7)
    ensures Encoding(bytes) == x
  {
    var d := DataLength(|bytes|);
    DivModUnique(d + 7, 8, |x| / 8, d + 7 - |x|);
    EncodingAt(bytes, x, 0);
    EncodingAt(bytes, x, 1);
    EncodingAt(bytes, x, 2);
    EncodingAt(bytes, x, 3);
    EncodingAt(bytes, x, 4);
    EncodingAt(bytes, x, 5);
    EncodingAt(bytes, x, 6);
    EncodingAt(bytes, x, 7);
    SameChars8(Encoding(bytes), x);
  }

  /** A string of 16 characters that matches the character-wise description
      at every position is the encoding. */
  lemma EncodingOf16Chars(bytes: seq<Byte>, x: string)
    requires |x| == 16 && 8 < DataLength(|bytes|) <= 16
    requires EncodesAt(bytes, x, 0) && EncodesAt(bytes, x, 1) && EncodesAt(bytes, x, 2) && EncodesAt(bytes, x, 3)
    requires EncodesAt(bytes, x, 4) && EncodesAt(bytes, x, 5) && EncodesAt(bytes, x, 6) && EncodesAt(bytes, x, 7)
    requires EncodesAt(bytes, x, 8) && EncodesAt(bytes, x, 9) && EncodesAt(bytes, x, 10) && EncodesAt(bytes, x, 11)
    requires EncodesAt(bytes, x, 12) && EncodesAt(bytes, x, 13) && EncodesAt(bytes, x, 14) && EncodesAt(bytes, x, 15)
    ensures Encoding(bytes) == x
  {
    var d := DataLength(|bytes|);
    DivModUnique(d + 7, 8, |x| / 8, d + 7 - |x|);
    EncodingAt(bytes, x, 0);
    EncodingAt(bytes, x, 1);
    EncodingAt(bytes, x, 2);
    EncodingAt(bytes, x, 3);
    EncodingAt(bytes, x, 4);
    EncodingAt(bytes, x, 5);
    EncodingAt(bytes, x, 6);
    EncodingAt(bytes, x, 7);
    EncodingAt(bytes, x, 8);
    EncodingAt(bytes, x, 9);
    EncodingAt(bytes, x, 10);
    EncodingAt(bytes, x, 11);
    EncodingAt(bytes, x, 12);
    EncodingAt(bytes, x, 13);
    EncodingAt(bytes, x, 14);
    EncodingAt(bytes, x, 15);
    SameChars16(Encoding(bytes), x);
  }

  lemma GroupValuesOfF(bytes: seq<Byte>)
    requires bytes == [0x66]
    ensures GroupValue(bytes, 0) == 12 && GroupValue(bytes, 1) == 24
  {
    GroupValueBits(bytes, 0);
    GroupValueBits(bytes, 1);
    BitsOf66();
  }

  lemma CharsOfF(bytes: seq<Byte>)
    requires |bytes| == 1
    requires GroupValue(bytes, 0) == 12 && GroupValue(bytes, 1) == 24
    ensures EncodesAt(bytes, "MY======", 0) && EncodesAt(bytes, "MY======", 1) && EncodesAt(bytes, "MY======", 2)
    ensures EncodesAt(bytes, "MY======", 3) && EncodesAt(bytes, "MY======", 4) && EncodesAt(bytes, "MY======", 5)
    ensures EncodesAt(bytes, "MY======", 6) && EncodesAt(bytes, "MY======", 7)
  {
    EncodesAtData(bytes, "MY======", 0, 12);
    EncodesAtData(bytes, "MY======", 1, 24);
    EncodesAtPad(bytes, "MY======", 2);
    EncodesAtPad(bytes, "MY======", 3);
    EncodesAtPad(bytes, "MY======", 4);
    EncodesAtPad(bytes, "MY======", 5);
    EncodesAtPad(bytes, "MY======", 6);
    EncodesAtPad(bytes, "MY======", 7);
  }

  lemma EncodingOfF(bytes: seq<Byte>)
    requires bytes == [0x66]
    ensures Encoding(bytes) == "MY======"
  {
    GroupValuesOfF(bytes);
    CharsOfF(bytes);
    EncodingOf8Chars(bytes, "MY======");
  }

  lemma GroupValuesOfFo(bytes: seq<Byte>)
    requires bytes == [0x66, 0x6f]
    ensures GroupValue(bytes, 0) == 12 && GroupValue(bytes, 1) == 25 && GroupValue(bytes, 2) == 23 && GroupValue(bytes, 3) == 16
  {
    GroupValuesOfF(bytes[..1]);
    GroupValuePrefix(bytes[..1], bytes, 0);
    GroupValueBits(bytes, 1);
    GroupValueBits(bytes, 2);
    GroupValueBits(bytes, 3);
    BitsOf66(); BitsOf6F();
  }

  lemma CharsOfFo(bytes: seq<Byte>)
    requires |bytes| == 2
    requires GroupValue(bytes, 0) == 12 && GroupValue(bytes, 1) == 25 && GroupValue(bytes, 2) == 23 && GroupValue(bytes, 3) == 16
    ensures EncodesAt(bytes, "MZXQ====", 0) && EncodesAt(bytes, "MZXQ====", 1) && EncodesAt(bytes, "MZXQ====", 2)
    ensures EncodesAt(bytes, "MZXQ====", 3) && EncodesAt(bytes, "MZXQ====", 4) && EncodesAt(bytes, "MZXQ====", 5)
    ensures EncodesAt(bytes, "MZXQ====", 6) && EncodesAt(bytes, "MZXQ====", 7)
  {
    EncodesAtData(bytes, "MZXQ====", 0, 12);
    EncodesAtData(bytes, "MZXQ====", 1, 25);
    EncodesAtData(bytes, "MZXQ====", 2, 23);
    EncodesAtData(bytes, "MZXQ====", 3, 16);
    EncodesAtPad(bytes, "MZXQ====", 4);
    EncodesAtPad(bytes, "MZXQ====", 5);
    EncodesAtPad(bytes, "MZXQ====", 6);
    EncodesAtPad(bytes, "MZXQ====", 7);
  }

  lemma EncodingOfFo(bytes: seq<Byte>)
    requires bytes == [0x66, 0x6f]
    ensures Encoding(bytes) == "MZXQ===="
  {
    GroupValuesOfFo(bytes);
    CharsOfFo(bytes);
    EncodingOf8Chars(bytes, "MZXQ====");
  }

  lemma GroupValuesOfFoo(bytes: seq<Byte>)
    requires bytes == [0x66, 0x6f, 0x6f]
    ensures GroupValue(bytes, 0) == 12 && GroupValue(bytes, 1) == 25 && GroupValue(bytes, 2) == 23 && GroupValue(bytes, 3) == 22
    ensures GroupValue(bytes, 4) == 30
  {
    GroupValuesOfFo(bytes[..2]);
    GroupValuePrefix(bytes[..2], bytes, 0);
    GroupValuePrefix(bytes[..2], bytes, 1);
    GroupValuePrefix(bytes[..2], bytes, 2);
    GroupValueBits(bytes, 3);
    GroupValueBits(bytes, 4);
    BitsOf6F();
  }

  lemma CharsOfFoo(bytes: seq<Byte>)
    requires |bytes| == 3
    requires GroupValue(bytes, 0) == 12 && GroupValue(bytes, 1) == 25 && GroupValue(bytes, 2) == 23 && GroupValue(bytes, 3) == 22
    requires GroupValue(bytes, 4) == 30
    ensures EncodesAt(bytes, "MZXW6===", 0) && EncodesAt(bytes, "MZXW6===", 1) && EncodesAt(bytes, "MZXW6===", 2)
    ensures EncodesAt(bytes, "MZXW6===", 3) && EncodesAt(bytes, "MZXW6===", 4) && EncodesAt(bytes, "MZXW6===", 5)
    ensures EncodesAt(bytes, "MZXW6===", 6) && EncodesAt(bytes, "MZXW6===", 7)
  {
    EncodesAtData(bytes, "MZXW6===", 0, 12);
    EncodesAtData(bytes, "MZXW6===", 1, 25);
    EncodesAtData(bytes, "MZXW6===", 2, 23);
    EncodesAtData(bytes, "MZXW6===", 3, 22);
    EncodesAtData(bytes, "MZXW6===", 4, 30);
    EncodesAtPad(bytes, "MZXW6===", 5);
    EncodesAtPad(bytes, "MZXW6===", 6);
    EncodesAtPad(bytes, "MZXW6===", 7);
  }

  lemma EncodingOfFoo(bytes: seq<Byte>)
    requires bytes == [0x66, 0x6f, 0x6f]
    ensures Encoding(bytes) == "MZXW6==="
  {
    GroupValuesOfFoo(bytes);
    CharsOfFoo(bytes);
    EncodingOf8Chars(bytes, "MZXW6===");
  }

  lemma GroupValuesOfFoob(bytes: seq<Byte>)
    requires bytes == [0x66, 0x6f, 0x6f, 0x62]
    ensures GroupValue(bytes, 0) == 12 && GroupValue(bytes, 1) == 25 && GroupValue(bytes, 2) == 23 && GroupValue(bytes, 3) == 22
    ensures GroupValue(bytes, 4) == 30 && GroupValue(bytes, 5) == 24 && GroupValue(bytes, 6) == 16
  {
    GroupValuesOfFoo(bytes[..3]);
    GroupValuePrefix(bytes[..3], bytes, 0);
    GroupValuePrefix(bytes[..3], bytes, 1);
    GroupValuePrefix(bytes[..3], bytes, 2);
    GroupValuePrefix(bytes[..3], bytes, 3);
    GroupValueBits(bytes, 4);
    GroupValueBits(bytes, 5);
    GroupValueBits(bytes, 6);
    BitsOf6F(); BitsOf62();
  }

  lemma CharsOfFoob(bytes: seq<Byte>)
    requires |bytes| == 4
    requires GroupValue(bytes, 0) == 12 && GroupValue(bytes, 1) == 25 && GroupValue(bytes, 2) == 23 && GroupValue(bytes, 3) == 22
    requires GroupValue(bytes, 4) == 30 && GroupValue(bytes, 5) == 24 && GroupValue(bytes, 6) == 16
    ensures EncodesAt(bytes, "MZXW6YQ=", 0) && EncodesAt(bytes, "MZXW6YQ=", 1) && EncodesAt(bytes, "MZXW6YQ=", 2)
    ensures EncodesAt(bytes, "MZXW6YQ=", 3) && EncodesAt(bytes, "MZXW6YQ=", 4) && EncodesAt(bytes, "MZXW6YQ=", 5)
    ensures EncodesAt(bytes, "MZXW6YQ=", 6) && EncodesAt(bytes, "MZXW6YQ=", 7)
  {
    EncodesAtData(bytes, "MZXW6YQ=", 0, 12);
    EncodesAtData(bytes, "MZXW6YQ=", 1, 25);
    EncodesAtData(bytes, "MZXW6YQ=", 2, 23);
    EncodesAtData(bytes, "MZXW6YQ=", 3, 22);
    EncodesAtData(bytes, "MZXW6YQ=", 4, 30);
    EncodesAtData(bytes, "MZXW6YQ=", 5, 24);
    EncodesAtData(bytes, "MZXW6YQ=", 6, 16);
    EncodesAtPad(bytes, "MZXW6YQ=", 7);
  }

  lemma EncodingOfFoob(bytes: seq<Byte>)
    requires bytes == [0x66, 0x6f, 0x6f, 0x62]
    ensures Encoding(bytes) == "MZXW6YQ="
  {
    GroupValuesOfFoob(bytes);
    CharsOfFoob(bytes);
    EncodingOf8Chars(bytes, "MZXW6YQ=");
  }

  lemma GroupValuesOfFooba(bytes: seq<Byte>)
    requires bytes == [0x66, 0x6f, 0x6f, 0x62, 0x61]
    ensures GroupValue(bytes, 0) == 12 && GroupValue(bytes, 1) == 25 && GroupValue(bytes, 2) == 23 && GroupValue(bytes, 3) == 22
    ensures GroupValue(bytes, 4) == 30 && GroupValue(bytes, 5) == 24 && GroupValue(bytes, 6) == 19 && GroupValue(bytes, 7) == 1
  {
    GroupValuesOfFoob(bytes[..4]);
    GroupValuePrefix(bytes[..4], bytes, 0);
    GroupValuePrefix(bytes[..4], bytes, 1);
    GroupValuePrefix(bytes[..4], bytes, 2);
    GroupValuePrefix(bytes[..4], bytes, 3);
    GroupValuePrefix(bytes[..4], bytes, 4);
    GroupValuePrefix(bytes[..4], bytes, 5);
    GroupValueBits(bytes, 6);
    GroupValueBits(bytes, 7);
    BitsOf62(); BitsOf61();
  }

  lemma CharsOfFooba(bytes: seq<Byte>)
    requires |bytes| == 5
    requires GroupValue(bytes, 0) == 12 && GroupValue(bytes, 1) == 25 && GroupValue(bytes, 2) == 23 && GroupValue(bytes, 3) == 22
    requires GroupValue(bytes, 4) == 30 && GroupValue(bytes, 5) == 24 && GroupValue(bytes, 6) == 19 && GroupValue(bytes, 7) == 1
    ensures EncodesAt(bytes, "MZXW6YTB", 0) && EncodesAt(bytes, "MZXW6YTB", 1) && EncodesAt(bytes, "MZXW6YTB", 2)
    ensures EncodesAt(bytes, "MZXW6YTB", 3) && EncodesAt(bytes, "MZXW6YTB", 4) && EncodesAt(bytes, "MZXW6YTB", 5)
    ensures EncodesAt(bytes, "MZXW6YTB", 6) && EncodesAt(bytes, "MZXW6YTB", 7)
  {
    EncodesAtData(bytes, "MZXW6YTB", 0, 12);
    EncodesAtData(bytes, "MZXW6YTB", 1, 25);
    EncodesAtData(bytes, "MZXW6YTB", 2, 23);
    EncodesAtData(bytes, "MZXW6YTB", 3, 22);
    EncodesAtData(bytes, "MZXW6YTB", 4, 30);
    EncodesAtData(bytes, "MZXW6YTB", 5, 24);
    EncodesAtData(bytes, "MZXW6YTB", 6, 19);
    EncodesAtData(bytes, "MZXW6YTB", 7, 1);
  }

  lemma EncodingOfFooba(bytes: seq<Byte>)
    requires bytes == [0x66, 0x6f, 0x6f, 0x62, 0x61]
    ensures Encoding(bytes) == "MZXW6YTB"
  {
    GroupValuesOfFooba(bytes);
    CharsOfFooba(bytes);
    EncodingOf8Chars(bytes, "MZXW6YTB");
  }

  lemma GroupValuesOfFoobar(bytes: seq<Byte>)
    requires bytes == [0x66, 0x6f, 0x6f, 0x62, 0x61, 0x72]
    ensures GroupValue(bytes, 0) == 12 && GroupValue(bytes, 1) == 25 && GroupValue(bytes, 2) == 23 && GroupValue(bytes, 3) == 22
    ensures GroupValue(bytes, 4) == 30 && GroupValue(bytes, 5) == 24 && GroupValue(bytes, 6) == 19 && GroupValue(bytes, 7) == 1
    ensures GroupValue(bytes, 8) == 14 && GroupValue(bytes, 9) == 8
  {
    GroupValuesOfFooba(bytes[..5]);
    GroupValuePrefix(bytes[..5], bytes, 0);
    GroupValuePrefix(bytes[..5], bytes, 1);
    GroupValuePrefix(bytes[..5], bytes, 2);
    GroupValuePrefix(bytes[..5], bytes, 3);
    GroupValuePrefix(bytes[..5], bytes, 4);
    GroupValuePrefix(bytes[..5], bytes, 5);
    GroupValuePrefix(bytes[..5], bytes, 6);
    GroupValuePrefix(bytes[..5], bytes, 7);
    GroupValueBits(bytes, 8);
    GroupValueBits(bytes, 9);
    BitsOf72();
  }

  lemma CharsOfFoobar(bytes: seq<Byte>)
    requires |bytes| == 6
    requires GroupValue(bytes, 0) == 12 && GroupValue(bytes, 1) == 25 && GroupValue(bytes, 2) == 23 && GroupValue(bytes, 3) == 22
    ensures EncodesAt(bytes, "MZXW6YTBOI======", 0) && EncodesAt(bytes, "MZXW6YTBOI======", 1)
    ensures EncodesAt(bytes, "MZXW6YTBOI======", 2) && EncodesAt(bytes, "MZXW6YTBOI======", 3)
  {
    EncodesAtData(bytes, "MZXW6YTBOI======", 0, 12);
    EncodesAtData(bytes, "MZXW6YTBOI======", 1, 25);
    EncodesAtData(bytes, "MZXW6YTBOI======", 2, 23);
    EncodesAtData(bytes, "MZXW6YTBOI======", 3, 22);
  }

  lemma CharsOfFoobarMid(bytes: seq<Byte>)
    requires |bytes| == 6
    requires GroupValue(bytes, 4) == 30 && GroupValue(bytes, 5) == 24 && GroupValue(bytes, 6) == 19 && GroupValue(bytes, 7) == 1
    ensures EncodesAt(bytes, "MZXW6YTBOI======", 4) && EncodesAt(bytes, "MZXW6YTBOI======", 5)
    ensures EncodesAt(bytes, "MZXW6YTBOI======", 6) && EncodesAt(bytes, "MZXW6YTBOI======", 7)
  {
    EncodesAtData(bytes, "MZXW6YTBOI======", 4, 30);
    EncodesAtData(bytes, "MZXW6YTBOI======", 5, 24);
    EncodesAtData(bytes, "MZXW6YTBOI======", 6, 19);
    EncodesAtData(bytes, "MZXW6YTBOI======", 7, 1);
  }

  lemma CharsOfFoobarTail(bytes: seq<Byte>)
    requires |bytes| == 6
    requires GroupValue(bytes, 8) == 14 && GroupValue(bytes, 9) == 8
    ensures EncodesAt(bytes, "MZXW6YTBOI======", 8) && EncodesAt(bytes, "MZXW6YTBOI======", 9) && EncodesAt(bytes, "MZXW6YTBOI======", 10)
    ensures EncodesAt(bytes, "MZXW6YTBOI======", 11) && EncodesAt(bytes, "MZXW6YTBOI======", 12) && EncodesAt(bytes, "MZXW6YTBOI======", 13)
    ensures EncodesAt(bytes, "MZXW6YTBOI======", 14) && EncodesAt(bytes, "MZXW6YTBOI======", 15)
  {
    EncodesAtData(bytes, "MZXW6YTBOI======", 8, 14);
    EncodesAtData(bytes, "MZXW6YTBOI======", 9, 8);
    EncodesAtPad(bytes, "MZXW6YTBOI======", 10);
    EncodesAtPad(bytes, "MZXW6YTBOI======", 11);
    EncodesAtPad(bytes, "MZXW6YTBOI======", 12);
    EncodesAtPad(bytes, "MZXW6YTBOI======", 13);
    EncodesAtPad(bytes, "MZXW6YTBOI======", 14);
    EncodesAtPad(bytes, "MZXW6YTBOI======", 15);
  }

  lemma EncodingOfFoobar(bytes: seq<Byte>)
    requires bytes == [0x66, 0x6f, 0x6f, 0x62, 0x61, 0x72]
    ensures Encoding(bytes) == "MZXW6YTBOI======"
  {
    GroupValuesOfFoobar(bytes);
    CharsOfFoobar(bytes);
    CharsOfFoobarMid(bytes);
    CharsOfFoobarTail(bytes);
    EncodingOf16Chars(bytes, "MZXW6YTBOI======");
  }

  /** The Base32 test vectors of section 10 of RFC 4648. */
  lemma EncodingVectors()
    ensures Encoding([]) == ""
    ensures Encoding([0x66]) == "MY======"
    ensures Encoding([0x66, 0x6f]) == "MZXQ===="
    ensures Encoding([0x66, 0x6f, 0x6f]) == "MZXW6==="
    ensures Encoding([0x66, 0x6f, 0x6f, 0x62]) == "MZXW6YQ="
    ensures Encoding([0x66, 0x6f, 0x6f, 0x62, 0x61]) == "MZXW6YTB"
    ensures Encoding([0x66, 0x6f, 0x6f, 0x62, 0x61, 0x72]) == "MZXW6YTBOI======"
  {
    EncodingLength([]);
    EncodingOfF([0x66]);
    EncodingOfFo([0x66, 0x6f]);
    EncodingOfFoo([0x66, 0x6f, 0x6f]);
    EncodingOfFoob([0x66, 0x6f, 0x6f, 0x62]);
    EncodingOfFooba([0x66, 0x6f, 0x6f, 0x62, 0x61]);
    EncodingOfFoobar([0x66, 0x6f, 0x6f, 0x62, 0x61, 0x72]);
  }

  // ---------------------------------------------------------------------------
  // Decoding

  /** `encodedString.replace(/=/g, '')`: every '=' removed, wherever it stands. */
  function StripPadding(s: string): (r: string)
    ensures Pad !in r
  {
    if s == [] then []
    else (if s[0] == Pad then [] else [s[0]]) + StripPadding(s[1..])
  }

  /** What is left of a decodable string is alphabet characters only. */
  lemma {:induction false} StripPaddingDecodable(s: string)
    requires Decodable(s)
    ensures AllInAlphabet(StripPadding(s))
  {
    if s != [] {
      StripPaddingDecodable(s[1..]);
    }
  }

  lemma {:induction false} StripPaddingAppend(a: string, b: string)
    ensures StripPadding(a + b) == StripPadding(a) + StripPadding(b)
  {
    if a == [] {
      assert a + b == b;
    } else {
      var head := if a[0] == Pad then [] else [a[0]];
      assert (a + b)[0] == a[0] && (a + b)[1..] == a[1..] + b;
      StripPaddingAppend(a[1..], b);
      assert StripPadding(a + b) == head + (StripPadding(a[1..]) + StripPadding(b));
    }
  }

  /** Only '=' is removed: every other character keeps its number of occurrences. */
  lemma {:induction false} StripPaddingCounts(s: string)
    ensures forall c :: c != Pad ==> multiset(StripPadding(s))[c] == multiset(s)[c]
  {
    if s != [] {
      StripPaddingCounts(s[1..]);
      assert s == [s[0]] + s[1..];
    }
  }

  /** A string without '=' is left as it is. */
  lemma {:induction false} StripPaddingKeeps(s: string)
    requires Pad !in s
    ensures StripPadding(s) == s
  {
    if s != [] {
      StripPaddingKeeps(s[1..]);
    }
  }

  lemma {:induction false} StripPaddingPads(n: nat)
    ensures StripPadding(Pads(n)) == []
  {
    if n > 0 {
      assert Pads(n)[1..] == Pads(n - 1);
      StripPaddingPads(n - 1);
    }
  }

  /** The strings the decoder is defined on: each character is '=' or in the
      alphabet (for any other character `indexOf` gives -1, and the bit string
      the decoder builds is no longer made of 5-bit groups). */
  predicate Decodable(s: string)
  {
    forall i :: 0 <= i < |s| ==> s[i] == Pad || IsAlphabetChar(s[i])
  }

  predicate AllInAlphabet(t: string)
  {
    forall i :: 0 <= i < |t| ==> IsAlphabetChar(t[i])
  }

  /** The alphabet position of every character, `BASE32_ALPHABET.indexOf(char)`
      (`IndexOfChar` shows the two agree). */
  function Indices(t: string): (r: seq<nat>)
    requires AllInAlphabet(t)
    ensures |r| == |t|
  {
    seq(|t|, i requires 0 <= i < |t| => ValueOfChar(t[i]) as nat)
  }

  lemma IndicesPrefix(t: string, k: nat)
    requires AllInAlphabet(t) && k < |t|
    ensures AllInAlphabet(t[..k]) && AllInAlphabet(t[..k + 1])
    ensures Indices(t[..k + 1]) == Indices(t[..k]) + [ValueOfChar(t[k]) as nat]
  {
    assert t[..k + 1] == t[..k] + [t[k]];
  }

  /** The bit string the decoder builds: the 5-bit form of the index of every
      character that is not '='. */
  function DecoderBits(s: string): (r: seq<bool>)
    requires Decodable(s)
    ensures |r| == 5 * |StripPadding(s)|
  {
    StripPaddingDecodable(s);
    Pack(Indices(StripPadding(s)), 5)
  }

  /** `parseInt(bits, 2)` for a slice of at most 8 bits. */
  function ByteOf(bits: seq<bool>): Byte
    requires |bits| <= 8
  {
    PowMonotone(2, |bits|, 8);
    assert Pow(2, 8) == 256;
    FromBits(bits)
  }

  /** The bytes of `bits` cut into consecutive 8-bit slices; a last slice of
      fewer than 8 bits is one more byte. */
  function BitsToBytes(bits: seq<bool>): (r: seq<Byte>)
    ensures |r| <= 1 <==> |bits| <= 8
    ensures |r| == 0 <==> bits == []
  {
    if |bits| <= 8 then (if bits == [] then [] else [ByteOf(bits)])
    else [ByteOf(bits[..8])] + BitsToBytes(bits[8..])
  }

  /** What `Base32.decode` returns for `s`. */
  function Decoding(s: string): (r: seq<Byte>)
    requires Decodable(s)
    ensures |r| == 0 <==> StripPadding(s) == []
  {
    BitsToBytes(DecoderBits(s))
  }

  /** `k` bits give ceil(k/8) bytes. */
  lemma {:induction false} BitsToBytesLength(bits: seq<bool>)
    ensures |BitsToBytes(bits)| == (|bits| + 7) / 8
  {
    if |bits| > 8 {
      BitsToBytesLength(bits[8..]);
    }
  }

  /** Byte `j` of the result is the value of bits 8j..8j+7, the slice cut
      short at the end of the bit string. */
  lemma {:induction false} BitsToBytesAt(bits: seq<bool>, j: nat)
    requires j < |BitsToBytes(bits)|
    ensures 8 * j < |bits|
    ensures BitsToBytes(bits)[j] == FromBits(bits[8 * j .. Min(8 * j + 8, |bits|)])
  {
    if j == 0 {
      if |bits| <= 8 {
        assert bits[0 .. |bits|] == bits;
      } else {
        assert bits[0 .. 8] == bits[..8];
      }
    } else {
      assert |bits| > 8;
      var rest := bits[8..];
      assert BitsToBytes(bits) == [ByteOf(bits[..8])] + BitsToBytes(rest);
      assert BitsToBytes(bits)[j] == BitsToBytes(rest)[j - 1];
      BitsToBytesAt(rest, j - 1);
      var lo, hi := 8 * j, Min(8 * j + 8, |bits|);
      assert 8 * (j - 1) == lo - 8 && Min(8 * (j - 1) + 8, |rest|) == hi - 8;
      forall k | 0 <= k < hi - lo ensures rest[lo - 8 .. hi - 8][k] == bits[lo .. hi][k] {
        assert rest[lo - 8 + k] == bits[lo + k];
      }
      assert rest[lo - 8 .. hi - 8] == bits[lo .. hi];
    }
  }

  /** When the bit count is not a multiple of 8 the last byte is the short
      final slice read as a binary number of its own length: it is not shifted
      left to fill 8 bits, so it stays below 2^(bits % 8). */
  lemma BitsToBytesShortSlice(bits: seq<bool>)
    requires |bits| % 8 != 0
    ensures |BitsToBytes(bits)| > 0
    ensures BitsToBytes(bits)[|BitsToBytes(bits)| - 1] == FromBits(bits[|bits| - |bits| % 8..])
    ensures BitsToBytes(bits)[|BitsToBytes(bits)| - 1] < Pow(2, |bits| % 8)
  {
    var n := |bits|;
    var q, r := n / 8, n % 8;
    assert n == 8 * q + r;
    BitsToBytesLength(bits);
    DivModUnique(n + 7, 8, q + 1, r - 1);
    BitsToBytesAt(bits, q);
    assert Min(8 * q + 8, n) == n && 8 * q == n - r;
    assert bits[8 * q .. Min(8 * q + 8, n)] == bits[n - r..];
  }

  /** Each character of `s` gives 5 bits, so the decoding has ceil(5k/8)
      bytes for `k` characters other than '='. */
  lemma DecodingLength(s: string)
    requires Decodable(s)
    ensures |Decoding(s)| == (5 * |StripPadding(s)| + 7) / 8
  {
    BitsToBytesLength(DecoderBits(s));
  }

  /** Byte `j` of the decoding is the most significant bit first value of
      bits 8j..8j+7 of the characters' 5-bit forms. */
  lemma DecodingAt(s: string, j: nat)
    requires Decodable(s) && j < |Decoding(s)|
    ensures 8 * j < |DecoderBits(s)|
    ensures Decoding(s)[j] == FromBits(DecoderBits(s)[8 * j .. Min(8 * j + 8, |DecoderBits(s)|)])
  {
    BitsToBytesAt(DecoderBits(s), j);
  }

  /** Bits 5i..5i+4 of the decoder's bit string read back as the value of
      character `i` other than '='. */
  lemma DecoderBitsAt(s: string, i: nat)
    requires Decodable(s) && i < |StripPadding(s)|
    ensures 5 * i + 5 <= |DecoderBits(s)|
    ensures FromBits(DecoderBits(s)[5 * i .. 5 * i + 5]) == ValueOfChar(StripPadding(s)[i])
  {
    StripPaddingDecodable(s);
    var t := StripPadding(s);
    var xs := Indices(t);
    assert DecoderBits(s) == Pack(xs, 5);
    PackSlice(xs, 5, i);
    assert xs[i] == ValueOfChar(t[i]) as nat;
    assert Pow(2, 5) == 32;
    FromBitsOfToBits(xs[i], 5);
  }

  lemma StripPaddingDropsPad(a: string, b: string)
    ensures StripPadding(a + [Pad] + b) == StripPadding(a + b)
  {
    StripPaddingAppend(a + [Pad], b);
    StripPaddingAppend(a, [Pad]);
    StripPaddingAppend(a, b);
    assert StripPadding([Pad]) == [] + StripPadding([]);
    assert StripPadding(a) + [] == StripPadding(a);
  }

  lemma DecodableWithPad(a: string, b: string)
    requires Decodable(a + b)
    ensures Decodable(a + [Pad] + b)
  {
    var x, y := a + b, a + [Pad] + b;
    forall i | 0 <= i < |y| ensures y[i] == Pad || IsAlphabetChar(y[i]) {
      if i < |a| {
        assert y[i] == x[i];
      } else if i > |a| {
        assert y[i] == x[i - 1];
      }
    }
  }

  /** The decoding depends only on the characters other than '='. */
  lemma DecodingOfStripped(x: string, y: string)
    requires Decodable(x) && Decodable(y) && StripPadding(x) == StripPadding(y)
    ensures Decoding(x) == Decoding(y)
  {
  }

  /** A '=' anywhere in the input changes nothing. */
  lemma DecodingIgnoresPad(a: string, b: string)
    requires Decodable(a + b)
    ensures Decodable(a + [Pad] + b) && Decoding(a + [Pad] + b) == Decoding(a + b)
  {
    DecodableWithPad(a, b);
    StripPaddingDropsPad(a, b);
    DecodingOfStripped(a + [Pad] + b, a + b);
  }

  /** `Base32.decode`, one step of the source per call. */
  method Decode(encodedString: string) returns (buffer: seq<Byte>)
    requires Decodable(encodedString)
    ensures buffer == Decoding(encodedString)
  {
    var stripped := StripPadding(encodedString);
    StripPaddingDecodable(encodedString);
    var binary := BinaryOfChars(stripped);
    buffer := BytesOfBinary(binary);
  }

  /** Lines 98-101: the index of every character written as 5 bits. */
  method BinaryOfChars(stripped: string) returns (binary: seq<bool>)
    requires AllInAlphabet(stripped)
    ensures binary == Pack(Indices(stripped), 5)
  {
    binary := [];
    for k := 0 to |stripped|
      invariant binary == Pack(Indices(stripped[..k]), 5)
    {
      var charIndex := IndexOf(Alphabet, stripped[k]);
      IndexOfChar(stripped[k]);
      IndicesPrefix(stripped, k);
      binary := binary + ToBits(charIndex, 5);
    }
    assert stripped[..|stripped|] == stripped;
  }

  /** Lines 104-107: consecutive slices of 8 bits, the last one possibly
      shorter, each appended to the buffer as one byte. */
  method BytesOfBinary(binary: seq<bool>) returns (buffer: seq<Byte>)
    ensures buffer == BitsToBytes(binary)
  {
    buffer := [];
    var i := 0;
    while i < |binary|
      invariant i <= |binary| ==> buffer + BitsToBytes(binary[i..]) == BitsToBytes(binary)
      invariant i > |binary| ==> buffer == BitsToBytes(binary)
      decreases |binary| - i
    {
      var chunk := binary[i .. Min(i + 8, |binary|)];
      if i + 8 < |binary| {
        assert binary[i..][..8] == chunk && binary[i..][8..] == binary[i + 8..];
      } else {
        assert binary[i..] == chunk;
      }
      buffer := buffer + [ByteOf(chunk)];
      i := i + 8;
    }
    if i <= |binary| {
      assert binary[i..] == [];
    }
  }

  // ---------------------------------------------------------------------------
  // Encoding followed by decoding

  lemma PackIndicesAppend(t: string, c: char)
    requires AllInAlphabet(t) && IsAlphabetChar(c)
    ensures AllInAlphabet(t + [c])
    ensures Pack(Indices(t + [c]), 5) == Pack(Indices(t), 5) + ToBits(ValueOfChar(c) as nat, 5)
  {
    var xs := Indices(t);
    assert Indices(t + [c]) == xs + [ValueOfChar(c) as nat];
    assert (xs + [ValueOfChar(c) as nat])[..|xs|] == xs;
  }

  /** The alphabet characters of the groups give back the group values. */
  lemma {:induction false} GroupsUnpack(bits: seq<bool>)
    requires |bits| % 5 == 0
    ensures AllInAlphabet(Groups(bits))
    ensures Pack(Indices(Groups(bits)), 5) == bits
  {
    if bits != [] {
      var front, last := bits[..|bits| - 5], bits[|bits| - 5..];
      assert front + last == bits;
      DivModUnique(|front|, 5, |bits| / 5 - 1, 0);
      GroupsUnpack(front);
      GroupsUnpackStep(front, last);
    }
  }

  /** One more group of five bits unpacks to itself. */
  lemma GroupsUnpackStep(front: seq<bool>, last: seq<bool>)
    requires |front| % 5 == 0 && |last| == 5 && |front + last| % 5 == 0
    requires AllInAlphabet(Groups(front)) && Pack(Indices(Groups(front)), 5) == front
    ensures AllInAlphabet(Groups(front + last))
    ensures Pack(Indices(Groups(front + last)), 5) == front + last
  {
    var bits := front + last;
    assert bits[..|bits| - 5] == front && bits[|bits| - 5..] == last;
    var v := FromBits(last);
    assert Pow(2, 5) == 32;
    AlphabetAt(v);
    var c := Alphabet[v];
    assert Groups(bits) == Groups(front) + [c];
    PackIndicesAppend(Groups(front), c);
    ToBitsOfFromBits(last);
  }

  /** Cutting the 8-bit forms of `bytes`, followed by fewer than 8 more bits,
      into 8-bit slices gives back `bytes`, and one more byte for the extra bits. */
  lemma {:induction false} BitsToBytesOfPack(bytes: seq<Byte>, tail: seq<bool>)
    requires |tail| < 8
    ensures BitsToBytes(Pack(bytes, 8) + tail)
            == bytes + (if tail == [] then [] else [FromBits(tail)])
  {
    if bytes == [] {
      assert Pack(bytes, 8) + tail == tail;
    } else {
      var b, rest := bytes[0], bytes[1..];
      var more := Pack(rest, 8) + tail;
      var extra: seq<int> := if tail == [] then [] else [FromBits(tail)];
      assert bytes == [b] + rest;
      PackCons(b, rest, 8);
      calc {
        BitsToBytes(Pack(bytes, 8) + tail);
        { assert Pack(bytes, 8) + tail == ToBits(b, 8) + more; }
        BitsToBytes(ToBits(b, 8) + more);
        { BitsToBytesCons(b, more); }
        [b] + BitsToBytes(more);
        { BitsToBytesOfPack(rest, tail); }
        [b] + (rest + extra);
        bytes + extra;
      }
    }
  }

  /** The 8-bit form of a byte in front of more bits is cut off as that byte. */
  lemma BitsToBytesCons(b: Byte, more: seq<bool>)
    ensures BitsToBytes(ToBits(b, 8) + more) == [b] + BitsToBytes(more)
  {
    var bits := ToBits(b, 8) + more;
    assert bits[..8] == ToBits(b, 8) && bits[8..] == more;
    assert Pow(2, 8) == 256;
    FromBitsOfToBits(b, 8);
    if |bits| <= 8 {
      assert bits == ToBits(b, 8);
    }
  }

  /** The encoder adds no zero bits exactly when the byte count is a multiple of 5. */
  lemma PadBitsNone(n: nat)
    ensures PadLength(8 * n, 5) == 0 <==> n % 5 == 0
  {
    var q, r := n / 5, n % 5;
    assert 8 * n == 5 * (8 * q + r) + 3 * r;
    if r == 0 {
      DivModUnique(8 * n, 5, 8 * q, 0);
    } else if r == 1 {
      DivModUnique(8 * n, 5, 8 * q + 1, 3);
    } else if r == 2 {
      DivModUnique(8 * n, 5, 8 * q + 3, 1);
    } else if r == 3 {
      DivModUnique(8 * n, 5, 8 * q + 4, 4);
    } else {
      DivModUnique(8 * n, 5, 8 * q + 6, 2);
    }
  }

  /** Alphabet characters followed by '=' are decodable, and stripping gives
      the characters back. */
  lemma StripPaddingOfPadded(data: string, n: nat)
    requires AllInAlphabet(data)
    ensures Decodable(data + Pads(n)) && StripPadding(data + Pads(n)) == data
  {
    var x := data + Pads(n);
    forall i | 0 <= i < |x| ensures x[i] == Pad || IsAlphabetChar(x[i]) {
      if i < |data| {
        assert x[i] == data[i];
      }
    }
    StripPaddingAppend(data, Pads(n));
    StripPaddingPads(n);
    StripPaddingKeeps(data);
  }

  /** The encoder's output is accepted by the decoder, and the decoder reads
      the encoder's bit string back from it. */
  lemma EncodingDecoderBits(bytes: seq<Byte>)
    ensures Decodable(Encoding(bytes))
    ensures DecoderBits(Encoding(bytes)) == EncoderBits(bytes)
  {
    var bits := EncoderBits(bytes);
    var data := Groups(bits);
    GroupsUnpack(bits);
    StripPaddingOfPadded(data, PadLength(|data|, 8));
  }

  /** Decoding undoes encoding when the byte count is a multiple of 5; otherwise
      the zero bits the encoder appended come back as one extra 0x00 byte. */
  lemma RoundTrip(bytes: seq<Byte>)
    ensures Decodable(Encoding(bytes))
    ensures Decoding(Encoding(bytes)) == if |bytes| % 5 == 0 then bytes else bytes + [0]
  {
    EncodingDecoderBits(bytes);
    var z := PadLength(8 * |bytes|, 5);
    BitsToBytesOfPack(bytes, Zeros(z));
    PadBitsNone(|bytes|);
    FromBitsOfZeros(z);
  }

  /** "MY======" decodes to "f" followed by the extra 0x00 byte. */
  lemma DecodingOfF(s: string, bytes: seq<Byte>)
    requires s == "MY======" && bytes == [0x66]
    ensures Decodable(s) && Decoding(s) == [0x66, 0x00]
  {
    EncodingOfF(bytes);
    RoundTrip(bytes);
  }

  /** "MZXW6YTB" decodes to "fooba" exactly: five bytes leave no extra bits. */
  lemma DecodingOfFooba(s: string, bytes: seq<Byte>)
    requires s == "MZXW6YTB" && bytes == [0x66, 0x6f, 0x6f, 0x62, 0x61]
    ensures Decodable(s) && Decoding(s) == bytes
  {
    EncodingOfFooba(bytes);
    assert |bytes| == 5;
    DecodingOfWhole(s, bytes);
  }

  /** A string that encodes a whole number of 5-byte blocks decodes back to them. */
  lemma DecodingOfWhole(s: string, bytes: seq<Byte>)
    requires s == Encoding(bytes) && |bytes| % 5 == 0
    ensures Decodable(s) && Decoding(s) == bytes
  {
    RoundTrip(bytes);
  }
}
