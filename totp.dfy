/** `TOTP.generate` of src/zero-totp.ts: the time-step counter of section 4 of
    RFC 6238, its 8-byte big-endian serialisation, the dynamic truncation of
    section 5.3 of RFC 4226, the reduction modulo 10^digits and the left
    padding with '0'. HMAC-SHA1 and the clock are parameters. */
module Totp {
  import opened Bits
  import Base32

  /** An HMAC-SHA1 result: 20 bytes. */
  type Digest = d: seq<Byte> | |d| == 20
    witness [0, 0, 0, 0, 0, 0, 0, 0, 0, 0, 0, 0, 0, 0, 0, 0, 0, 0, 0, 0]

  /** HMAC-SHA1 keyed with the first argument, over the second:
      `crypto.createHmac('sha1', key).update(message).digest()`. */
  type Hmac = (seq<Byte>, seq<Byte>) -> Digest

  /** 2^63: `writeBigInt64BE` accepts the values in [-2^63, 2^63). */
  const Int64Bound: int := 0x8000_0000_0000_0000

  /** 2^64: a signed 64-bit value is stored as its remainder modulo 2^64. */
  const Word64: int := 0x1_0000_0000_0000_0000

  // ---------------------------------------------------------------------------
  // Time-step counter

  /** Line 14: `Math.floor(nowMs / (timeStep * 1000))`, the number of whole
      steps of `timeStep` seconds at `nowMs` milliseconds since the epoch. */
  function TimeCounter(nowMs: int, timeStep: nat): (r: int)
    requires timeStep > 0
    ensures timeStep * 1000 * r <= nowMs < timeStep * 1000 * (r + 1)
  {
    nowMs / (timeStep * 1000)
  }

  /** Every instant of the window [c * step, (c + 1) * step) has counter `c`. */
  lemma TimeCounterOfWindow(nowMs: int, timeStep: nat, c: int)
    requires timeStep > 0
    requires timeStep * 1000 * c <= nowMs < timeStep * 1000 * (c + 1)
    ensures TimeCounter(nowMs, timeStep) == c
  {
    var step := timeStep * 1000;
    assert step * (c + 1) == step * c + step;
    DivModUnique(nowMs, step, c, nowMs - step * c);
  }

  // ---------------------------------------------------------------------------
  // Counter bytes

  /** The `n`-byte big-endian form of `v` modulo 256^n. */
  function BigEndian(v: nat, n: nat): (r: seq<Byte>)
    ensures |r| == n
  {
    if n == 0 then [] else BigEndian(v / 256, n - 1) + [v % 256]
  }

  /** The value of `bytes` read most significant byte first. */
  function FromBigEndian(bytes: seq<Byte>): (r: nat)
    ensures r < Pow(256, |bytes|)
  {
    if bytes == [] then 0
    else 256 * FromBigEndian(bytes[..|bytes| - 1]) + bytes[|bytes| - 1]
  }

  lemma {:induction false} FromBigEndianOfBigEndian(v: nat, n: nat)
    requires v < Pow(256, n)
    ensures FromBigEndian(BigEndian(v, n)) == v
  {
    if n > 0 {
      var bytes := BigEndian(v, n);
      assert bytes[..n - 1] == BigEndian(v / 256, n - 1);
      FromBigEndianOfBigEndian(v / 256, n - 1);
    }
  }

  lemma {:induction false} BigEndianOfFromBigEndian(bytes: seq<Byte>)
    ensures BigEndian(FromBigEndian(bytes), |bytes|) == bytes
  {
    if bytes != [] {
      var front, last := bytes[..|bytes| - 1], bytes[|bytes| - 1];
      assert bytes == front + [last];
      DivModUnique(FromBigEndian(bytes), 256, FromBigEndian(front), last);
      BigEndianOfFromBigEndian(front);
    }
  }

  /** Byte `j` of the `n`-byte form is the base-256 digit of weight 256^(n-1-j). */
  lemma {:induction false} BigEndianAt(v: nat, n: nat, j: nat)
    requires j < n
    ensures BigEndian(v, n)[j] == (v / Pow(256, n - 1 - j)) % 256
  {
    if j < n - 1 {
      BigEndianAt(v / 256, n - 1, j);
      DivDiv(v, 256, Pow(256, n - 2 - j));
      assert Pow(256, n - 1 - j) == 256 * Pow(256, n - 2 - j);
    }
  }

  predicate InInt64(counter: int)
  {
    -Int64Bound <= counter < Int64Bound
  }

  /** `writeBigInt64BE(BigInt(counter), 0)` on an 8-byte buffer: the two's
      complement form of `counter`, most significant byte first. */
  function CounterBytes(counter: int): (r: seq<Byte>)
    requires InInt64(counter)
    ensures |r| == 8
  {
    BigEndian(counter % Word64, 8)
  }

  /** `readBigInt64BE` of the bytes a 64-bit two's complement value maps to. */
  function Signed64(u: nat): int
  {
    if u < Int64Bound then u else u - Word64
  }

  /** Reading the counter bytes back gives the counter: as an unsigned number
      for a counter that is not negative, as a signed one in every case. */
  lemma CounterBytesRoundTrip(counter: int)
    requires InInt64(counter)
    ensures FromBigEndian(CounterBytes(counter)) == counter % Word64
    ensures Signed64(FromBigEndian(CounterBytes(counter))) == counter
    ensures counter >= 0 ==> FromBigEndian(CounterBytes(counter)) == counter
  {
    assert Pow(256, 8) == Word64;
    FromBigEndianOfBigEndian(counter % Word64, 8);
    if counter < 0 {
      DivModUnique(counter, Word64, -1, counter + Word64);
    } else {
      DivModUnique(counter, Word64, 0, counter);
    }
  }

  /** Lines 17-18: `Buffer.alloc(8)` filled by `writeBigInt64BE`, which stores
      the bytes from the last to the first. */
  method WriteCounter(counter: int) returns (buf: array<Byte>)
    requires InInt64(counter)
    ensures fresh(buf) && buf[..] == CounterBytes(counter)
  {
    buf := new Byte[8](_ => 0);
    var rest: nat := counter % Word64;
    ghost var v: nat := rest;
    var k := 8;
    while k > 0
      invariant 0 <= k <= 8 && buf.Length == 8
      invariant rest == v / Pow(256, 8 - k)
      invariant forall j :: k <= j < 8 ==> buf[j] == (v / Pow(256, 7 - j)) % 256
    {
      k := k - 1;
      buf[k] := rest % 256;
      DivDiv(v, Pow(256, 7 - k), 256);
      assert Pow(256, 8 - k) == 256 * Pow(256, 7 - k);
      rest := rest / 256;
    }
    forall j | 0 <= j < 8 ensures buf[j] == BigEndian(v, 8)[j] {
      BigEndianAt(v, 8, j);
    }
  }

  // ---------------------------------------------------------------------------
  // Dynamic truncation

  /** Line 33: `hmacResult[hmacResult.length - 1] & 0x0f`. */
  function Offset(digest: Digest): (r: nat)
    ensures r <= 15 && r + 4 <= |digest|
  {
    digest[|digest| - 1] % 16
  }

  /** Lines 34-38. The masks and shifts act on disjoint bit ranges of values
      below 2^31, so they are the arithmetic below: `& 0x7f` is `% 128`,
      `& 0xff` leaves a byte as it is, `<< k` multiplies by 2^k and `|`
      adds. */
  function Code(digest: Digest): (r: nat)
    ensures r < 0x8000_0000
  {
    var o := Offset(digest);
    (digest[o] as int % 128) * 0x100_0000 + digest[o + 1] as int * 0x1_0000
      + digest[o + 2] as int * 0x100 + digest[o + 3] as int
  }

  /** Section 5.3 of RFC 4226: the code is the four bytes at the offset read
      as a big-endian 32-bit number, with the top bit cleared. */
  lemma CodeIsBigEndian(digest: Digest)
    ensures Code(digest) == FromBigEndian(digest[Offset(digest) .. Offset(digest) + 4]) % 0x8000_0000
  {
    var o := Offset(digest);
    var w := digest[o .. o + 4];
    var a, b, c, d: int := w[0], w[1], w[2], w[3];
    assert w[..3][..2] == w[..2] && w[..2][..1] == w[..1] && w[..1][..0] == [];
    assert FromBigEndian(w[..1]) == a;
    assert FromBigEndian(w[..2]) == 256 * a + b;
    assert FromBigEndian(w[..3]) == 256 * (256 * a + b) + c;
    assert FromBigEndian(w) == a * 0x100_0000 + b * 0x1_0000 + c * 0x100 + d;
    var low := b * 0x1_0000 + c * 0x100 + d;
    assert a * 0x100_0000 == 0x8000_0000 * (a / 128) + (a % 128) * 0x100_0000;
    DivModUnique(FromBigEndian(w), 0x8000_0000, a / 128, (a % 128) * 0x100_0000 + low);
  }

  // ---------------------------------------------------------------------------
  // Token and rendering

  /** Line 41: `code % Math.pow(10, digits)`. */
  function Token(code: nat, digits: nat): (r: nat)
    ensures r < Pow(10, digits)
  {
    code % Pow(10, digits)
  }

  /** With ten digits or more the token is the whole code, since every code
      is below 2^31 < 10^10. */
  lemma TokenOfWideDigits(code: nat, digits: nat)
    requires code < 0x8000_0000 && digits >= 10
    ensures Token(code, digits) == code
  {
    assert Pow(10, 10) == 10_000_000_000;
    PowMonotone(10, 10, digits);
    DivModUnique(code, Pow(10, digits), 0, code);
  }

  /** The decimal digit character for `d < 10`. */
  function DigitChar(d: nat): char
    requires d < 10
  {
    ('0' as int + d) as char
  }

  predicate IsDigit(c: char)
  {
    '0' <= c <= '9'
  }

  predicate AllDigits(s: string)
  {
    forall i :: 0 <= i < |s| ==> IsDigit(s[i])
  }

  /** `n.toString()` for an integer `n >= 0`: its decimal digits without
      leading zeros. */
  function Decimal(n: nat): (r: string)
    ensures |r| >= 1 && AllDigits(r)
    ensures n > 0 ==> r[0] != '0'
  {
    if n < 10 then [DigitChar(n)] else Decimal(n / 10) + [DigitChar(n % 10)]
  }

  /** The number a string of decimal digits stands for. */
  function DecimalValue(s: string): nat
    requires AllDigits(s)
  {
    if s == [] then 0
    else 10 * DecimalValue(s[..|s| - 1]) + (s[|s| - 1] as int - '0' as int)
  }

  lemma {:induction false} DecimalValueOfDecimal(n: nat)
    ensures DecimalValue(Decimal(n)) == n
  {
    if n >= 10 {
      var s := Decimal(n);
      assert s[..|s| - 1] == Decimal(n / 10);
      DecimalValueOfDecimal(n / 10);
    }
  }

  /** A number below 10^k has at most `k` decimal digits, `k >= 1`. */
  lemma {:induction false} DecimalLength(n: nat, k: nat)
    requires k >= 1 && n < Pow(10, k)
    ensures |Decimal(n)| <= k
  {
    if n >= 10 {
      assert Pow(10, k) == 10 * Pow(10, k - 1);
      DecimalLength(n / 10, k - 1);
    }
  }

  /** `s.padStart(width, fill)`: `fill` repeated in front of `s` up to `width` characters. */
  function PadStart(s: string, width: nat, fill: char): (r: string)
    ensures |r| == if |s| < width then width else |s|
    ensures r[|r| - |s|..] == s
    ensures forall i :: 0 <= i < |r| - |s| ==> r[i] == fill
  {
    if |s| >= width then s else seq(width - |s|, _ => fill) + s
  }

  /** Leading '0' characters do not change the value. */
  lemma {:induction false} DecimalValueOfPadded(z: string, s: string)
    requires forall i :: 0 <= i < |z| ==> z[i] == '0'
    requires AllDigits(s)
    ensures AllDigits(z + s) && DecimalValue(z + s) == DecimalValue(s)
  {
    if s == [] {
      assert z + s == z;
      DecimalValueOfZeros(z);
    } else {
      var t := z + s;
      assert t[..|t| - 1] == z + s[..|s| - 1];
      DecimalValueOfPadded(z, s[..|s| - 1]);
    }
  }

  lemma {:induction false} DecimalValueOfZeros(z: string)
    requires forall i :: 0 <= i < |z| ==> z[i] == '0'
    ensures AllDigits(z) && DecimalValue(z) == 0
  {
    if z != [] {
      DecimalValueOfZeros(z[..|z| - 1]);
    }
  }

  /** Line 44: `token.toString().padStart(digits, '0')`. */
  function Render(token: nat, digits: nat): (r: string)
    ensures |r| >= 1 && |r| >= digits
  {
    PadStart(Decimal(token), digits, '0')
  }

  /** For `digits >= 1` and a token below 10^digits the result has exactly
      `digits` characters, all decimal digits, and reads back as the token. */
  lemma RenderDigits(token: nat, digits: nat)
    requires digits >= 1 && token < Pow(10, digits)
    ensures |Render(token, digits)| == digits
    ensures AllDigits(Render(token, digits)) && DecimalValue(Render(token, digits)) == token
  {
    var s := Decimal(token);
    DecimalLength(token, digits);
    var r := Render(token, digits);
    var z := r[..|r| - |s|];
    assert r == z + s;
    DecimalValueOfPadded(z, s);
    DecimalValueOfDecimal(token);
  }

  // ---------------------------------------------------------------------------
  // The one-time password

  /** The one-time password for the key bytes `key` at time step `counter`. */
  function Otp(hmac: Hmac, key: seq<Byte>, counter: int, digits: nat): (r: string)
    requires InInt64(counter)
    ensures |r| >= 1 && |r| >= digits
  {
    Render(Token(Code(hmac(key, CounterBytes(counter))), digits), digits)
  }

  /** For `digits >= 1` the password is `digits` decimal digits whose value is
      the truncated code modulo 10^digits; with no digits it is "0". */
  lemma OtpShape(hmac: Hmac, key: seq<Byte>, counter: int, digits: nat)
    requires InInt64(counter)
    ensures var code := Code(hmac(key, CounterBytes(counter)));
            digits >= 1 ==> |Otp(hmac, key, counter, digits)| == digits
                            && AllDigits(Otp(hmac, key, counter, digits))
                            && DecimalValue(Otp(hmac, key, counter, digits)) == code % Pow(10, digits)
    ensures digits == 0 ==> Otp(hmac, key, counter, digits) == "0"
  {
    var code := Code(hmac(key, CounterBytes(counter)));
    if digits >= 1 {
      RenderDigits(Token(code, digits), digits);
    } else {
      assert Token(code, 0) == 0;
    }
  }

  /** `TOTP.generate`, with the clock reading `nowMs` and HMAC-SHA1 `hmac`
      passed in; `timeStep` and `digits` default to 30 and 6 as in the source. */
  method Generate(hmac: Hmac, nowMs: int, secret: string, timeStep: nat := 30, digits: nat := 6)
    returns (otp: string)
    requires timeStep > 0 && InInt64(TimeCounter(nowMs, timeStep))
    requires Base32.Decodable(secret)
    ensures otp == Otp(hmac, Base32.Decoding(secret), TimeCounter(nowMs, timeStep), digits)
  {
    var counter := nowMs / (timeStep * 1000);
    var counterBuffer := WriteCounter(counter);
    var secretBuffer := Base32.Decode(secret);
    var hmacResult := hmac(secretBuffer, counterBuffer[..]);
    var code := Code(hmacResult);
    var token := code % Pow(10, digits);
    otp := Render(token, digits);
  }

  /** Secrets that differ only in where '=' stands give the same password. */
  lemma OtpIgnoresPad(hmac: Hmac, a: string, b: string, counter: int, digits: nat)
    requires InInt64(counter) && Base32.Decodable(a + b)
    ensures Base32.Decodable(a + [Base32.Pad] + b)
    ensures Otp(hmac, Base32.Decoding(a + [Base32.Pad] + b), counter, digits)
         == Otp(hmac, Base32.Decoding(a + b), counter, digits)
  {
    Base32.DecodingIgnoresPad(a, b);
  }

  // ---------------------------------------------------------------------------
  // The example of section 5.4 of RFC 4226

  const ExampleDigest: Digest := [0x1f, 0x86, 0x98, 0x69, 0x0e, 0x02, 0xca, 0x16, 0x61, 0x85,
                                  0x50, 0xef, 0x7f, 0x19, 0xda, 0x8e, 0x94, 0x5b, 0x55, 0x5a]

  /** The last byte 0x5a gives offset 10, and bytes 10..13 give 0x50ef7f19. */
  lemma ExampleTruncation()
    ensures Offset(ExampleDigest) == 10
    ensures Code(ExampleDigest) == 0x50ef7f19 == 1357872921
  {
  }

  /** With six digits the code 1357872921 becomes "872921". */
  lemma ExampleToken()
    ensures Render(Token(1357872921, 6), 6) == "872921"
  {
    assert Pow(10, 6) == 1_000_000;
    assert Token(1357872921, 6) == 872921;
  }
}
