/** The console XOR "cryptor" (src/cryptor.cpp): a NUL-terminated line is XORed
    byte by byte with 0xAA and printed as hex; the decryption command reads such a
    hex line back, token by token. A `char` is modelled as its unsigned value. */
module Cryptor {

  type Byte = b: int | 0 <= b < 256

  /** The key every byte is XORed with (cryptor.cpp:14, 20, 60). */
  const Key: Byte := 0xAA

  const Nul: Byte := 0

  const Space: Byte := 0x20

  // ------------------------------------------------------------------- xor

  /** Bitwise exclusive or of two naturals, one bit at a time from the lowest. */
  function Xor(a: nat, b: nat): nat
    decreases a + b
  {
    if a == 0 && b == 0 then 0 else 2 * Xor(a / 2, b / 2) + (a % 2 + b % 2) % 2
  }

  lemma {:induction false} XorZeroRight(a: nat)
    ensures Xor(a, 0) == a
    decreases a
  {
    if a != 0 {
      XorZeroRight(a / 2);
    }
  }

  lemma {:induction false} XorCancel(a: nat, k: nat)
    ensures Xor(Xor(a, k), k) == a
    decreases a + k
  {
    if k == 0 {
      XorZeroRight(a);
      XorZeroRight(a);
    } else {
      var x, y := Xor(a, k), Xor(Xor(a, k), k);
      XorHalves(a, k);
      XorHalves(x, k);
      XorCancel(a / 2, k / 2);
      ParityCancel(a % 2, k % 2);
      SameHalves(y, a);
    }
  }

  lemma ParityCancel(p: nat, q: nat)
    requires p < 2 && q < 2
    ensures ((p + q) % 2 + q) % 2 == p
  {
  }

  /** A natural is determined by its half and its parity. */
  lemma SameHalves(u: nat, v: nat)
    requires u / 2 == v / 2 && u % 2 == v % 2
    ensures u == v
  {
  }

  /** The high bits of a result are the result of the high bits; its low bit is the
      sum of the low bits, modulo 2. */
  lemma XorHalves(a: nat, b: nat)
    ensures Xor(a, b) / 2 == Xor(a / 2, b / 2) && Xor(a, b) % 2 == (a % 2 + b % 2) % 2
  {
  }

  /** The positive naturals, so that `2^n` can serve as a modulus. */
  type Positive = k: nat | k >= 1 witness 1

  /** `2^n`, the bound of an `n`-bit value. */
  function Pow2(n: nat): Positive
  {
    if n == 0 then 1 else 2 * Pow2(n - 1)
  }

  /** Below `2^n` a bitwise result stays below `2^n`. */
  lemma {:induction false} XorBelow(a: nat, b: nat, n: nat)
    requires a < Pow2(n) && b < Pow2(n)
    ensures Xor(a, b) < Pow2(n)
    decreases n
  {
    if n > 0 && !(a == 0 && b == 0) {
      XorBelow(a / 2, b / 2, n - 1);
    }
  }

  lemma {:induction false} XorZeroIff(a: nat, b: nat)
    ensures Xor(a, b) == 0 <==> a == b
    decreases a + b
  {
    if !(a == 0 && b == 0) {
      XorZeroIff(a / 2, b / 2);
    }
  }

  /** The low `n` bits of a result are the result of the low `n` bits of the
      operands: truncating before or after the operation is the same. */
  lemma {:induction false} XorLow(a: nat, b: nat, n: nat)
    ensures Xor(a % Pow2(n), b % Pow2(n)) == Xor(a, b) % Pow2(n)
    decreases n
  {
    if n > 0 {
      var m := Pow2(n - 1);
      var u, v := a % (2 * m), b % (2 * m);
      var x, y := Xor(u, v), Xor(a, b) % (2 * m);
      XorLow(a / 2, b / 2, n - 1);
      ModHalf(a, m);
      ModHalf(b, m);
      ModHalf(Xor(a, b), m);
      XorHalves(a, b);
      XorHalves(u, v);
      SameHalves(x, y);
    }
  }

  /** Reducing modulo `2m`, then halving, is halving, then reducing modulo `m`; the
      parity is kept. */
  lemma ModHalf(x: nat, m: nat)
    requires m >= 1
    ensures (x % (2 * m)) / 2 == (x / 2) % m && (x % (2 * m)) % 2 == x % 2
  {
    var q, r := (x / 2) / m, (x / 2) % m;
    assert x == (2 * m) * q + (2 * r + x % 2);
    ModUnique(x, 2 * m, q, 2 * r + x % 2);
  }

  /** Division with remainder has one answer. */
  lemma ModUnique(x: nat, d: nat, q: nat, r: nat)
    requires d >= 1 && r < d && x == d * q + r
    ensures x % d == r
  {
    var q', r' := x / d, x % d;
    assert d * q + r == d * q' + r';
    if q < q' {
      assert d * (q' - q) == d * q' - d * q;
      MulAtLeast(d, q' - q);
    } else if q' < q {
      assert d * (q - q') == d * q - d * q';
      MulAtLeast(d, q - q');
    }
  }

  lemma MulAtLeast(d: nat, k: nat)
    requires k >= 1
    ensures d * k >= d
  {
    assert d * k == d + d * (k - 1);
  }

  /** `b ^ 0xAA` on a byte. */
  function XorKey(b: Byte): Byte
  {
    XorBelow(b, Key, 8);
    Xor(b, Key)
  }

  // ---------------------------------------------------------------- strlen

  /** Index of the first NUL of `s`, where a C string ends. */
  function NulIndex(s: seq<Byte>): (n: nat)
    requires Nul in s
    ensures n < |s| && s[n] == Nul
    ensures forall i :: 0 <= i < n ==> s[i] != Nul
  {
    if s[0] == Nul then 0 else 1 + NulIndex(s[1..])
  }

  /** strlen (cryptor.cpp:4-10): counts the bytes before the first NUL. The buffer
      must contain a NUL; the loop would otherwise run off its end. */
  method Strlen(str: array<Byte>) returns (len: nat)
    requires Nul in str[..]
    ensures len == NulIndex(str[..])
  {
    ghost var w := NulIndex(str[..]);
    len := 0;
    while str[len] != Nul
      invariant 0 <= len <= w
      invariant forall i :: 0 <= i < len ==> str[i] != Nul
      decreases w - len
    {
      len := len + 1;
    }
    NulIndexUnique(str[..], len);
  }

  /** A NUL with no NUL before it is the first one. */
  lemma NulIndexUnique(s: seq<Byte>, k: nat)
    requires k < |s| && s[k] == Nul
    requires forall i :: 0 <= i < k ==> s[i] != Nul
    ensures NulIndex(s) == k
  {
    var n := NulIndex(s);
  }

  // ------------------------------------------------------- encrypt / decrypt

  /** The buffer after XORing its first `n` bytes with the key. */
  function Crypt(s: seq<Byte>, n: nat): (r: seq<Byte>)
    ensures |r| == |s|
    ensures forall i :: 0 <= i < |s| ==> r[i] == if i < n then XorKey(s[i]) else s[i]
  {
    seq(|s|, i requires 0 <= i < |s| => if i < n then XorKey(s[i]) else s[i])
  }

  /** The transform is an involution: applied twice it restores the buffer, which is
      why decrypt can be the same loop as encrypt. */
  lemma CryptInvolution(s: seq<Byte>, n: nat)
    ensures Crypt(Crypt(s, n), n) == s
  {
    var t := Crypt(Crypt(s, n), n);
    forall i | 0 <= i < |s|
      ensures t[i] == s[i]
    {
      if i < n {
        XorKeyTwice(s[i]);
      }
    }
  }

  lemma XorKeyTwice(b: Byte)
    ensures XorKey(XorKey(b)) == b
  {
    XorCancel(b, Key);
  }

  /** An encrypted byte is NUL exactly when the plain byte was 0xAA, so ciphertext
      cannot be handled as a C string; it is printed as hex instead. */
  lemma CipherNulIff(b: Byte)
    ensures XorKey(b) == Nul <==> b == 0xAA
  {
    XorZeroIff(b, Key);
  }

  /** encrypt (cryptor.cpp:12-16): XORs `data[0..length)` in place. */
  method Encrypt(data: array<Byte>, length: nat)
    requires length <= data.Length
    modifies data
    ensures data[..] == Crypt(old(data[..]), length)
  {
    var i := 0;
    while i < length
      invariant 0 <= i <= length
      invariant data[..] == Crypt(old(data[..]), i)
    {
      data[i] := XorKey(data[i]);
      i := i + 1;
    }
  }

  /** decrypt (cryptor.cpp:18-22): the same transform as encrypt. */
  method Decrypt(data: array<Byte>, length: nat)
    requires length <= data.Length
    modifies data
    ensures data[..] == Crypt(old(data[..]), length)
  {
    var i := 0;
    while i < length
      invariant 0 <= i <= length
      invariant data[..] == Crypt(old(data[..]), i)
    {
      data[i] := XorKey(data[i]);
      i := i + 1;
    }
  }

  /** Decrypting what was just encrypted, over the same length, restores the buffer. */
  method EncryptThenDecrypt(data: array<Byte>, length: nat)
    requires length <= data.Length
    modifies data
    ensures data[..] == old(data[..])
  {
    Encrypt(data, length);
    Decrypt(data, length);
    CryptInvolution(old(data[..]), length);
  }

  // --------------------------------------------------------- hex printing

  /** The lowercase hex digit for `d < 16`. */
  function HexChar(d: nat): (c: Byte)
    requires d < 16
    ensures IsHexDigit(c) && DigitValue(c) == d
  {
    LowerDigits[d]
  }

  /** The characters `0`-`9`, `a`-`f`. */
  const LowerDigits: seq<Byte> :=
    [0x30, 0x31, 0x32, 0x33, 0x34, 0x35, 0x36, 0x37, 0x38, 0x39, 0x61, 0x62, 0x63, 0x64, 0x65, 0x66]

  /** `std::hex << (int)(unsigned char)b` (cryptor.cpp:39): lowercase hex without
      leading zeros, so one or two digits. */
  function HexByte(b: Byte): (h: seq<Byte>)
    ensures |h| <= 2 && PrintsAs(h, b)
  {
    if b < 16 then
      var h := [HexChar(b)];
      assert h[..0] == [];
      h
    else
      var hi, lo := HexChar(b / 16), HexChar(b % 16);
      var h := [hi, lo];
      assert h[..1] == [hi] && [hi][..0] == [];
      assert HexValue([hi]) == b / 16;
      assert HexValue(h) == (b / 16) * 16 + b % 16;
      h
  }

  /** `h` is a non-empty run of hex digits denoting `b`. */
  predicate PrintsAs(h: seq<Byte>, b: Byte) {
    1 <= |h| && (forall i :: 0 <= i < |h| ==> IsHexDigit(h[i])) && HexValue(h) == b
  }

  /** The printed form of each byte of `c`. */
  function Printed(c: seq<Byte>): (ts: seq<seq<Byte>>)
    ensures |ts| == |c|
    ensures forall i :: 0 <= i < |c| ==> |ts[i]| <= 2 && PrintsAs(ts[i], c[i])
  {
    seq(|c|, i requires 0 <= i < |c| => HexByte(c[i]))
  }

  /** Tokens written one after the other, each followed by one space. */
  function Join(ts: seq<seq<Byte>>): seq<Byte> {
    if |ts| == 0 then [] else ts[0] + [Space] + Join(ts[1..])
  }

  /** What the encryption command prints for ciphertext `c` (cryptor.cpp:38-40). */
  function HexLine(c: seq<Byte>): seq<Byte> {
    Join(Printed(c))
  }

  // --------------------------------------------------------- hex parsing

  predicate IsHexDigit(c: Byte) {
    (48 <= c <= 57) || (97 <= c <= 102) || (65 <= c <= 70)
  }

  /** The value of one hex digit; `%x` accepts both letter cases. */
  function DigitValue(c: Byte): (d: nat)
    requires IsHexDigit(c)
    ensures d < 16
  {
    if c <= 57 then c - 48 else if c <= 70 then c - 65 + 10 else c - 97 + 10
  }

  /** The number a run of hex digits denotes. */
  function HexValue(h: seq<Byte>): nat
    requires forall i :: 0 <= i < |h| ==> IsHexDigit(h[i])
  {
    if |h| == 0 then 0 else HexValue(h[..|h| - 1]) * 16 + DigitValue(h[|h| - 1])
  }

  /** The byte at `p`, reading past the end as NUL (the buffer is NUL-terminated). */
  function Peek(s: seq<Byte>, p: nat): Byte {
    if p < |s| then s[p] else Nul
  }

  /** `while (*ptr == ' ') ptr++;` (cryptor.cpp:54-55): the first position from `p`
      on that does not hold a space. */
  function SkipSpaces(s: seq<Byte>, p: nat): (q: nat)
    requires p <= |s|
    ensures p <= q <= |s| && Peek(s, q) != Space
    decreases |s| - p
  {
    if p < |s| && s[p] == Space then SkipSpaces(s, p + 1) else p
  }

  /** `while (*ptr != ' ' && *ptr != '\0') ptr++;` (cryptor.cpp:62-63): the first
      position from `p` on that holds a space or the terminator. */
  function SkipToken(s: seq<Byte>, p: nat): (q: nat)
    requires p <= |s|
    ensures p <= q <= |s| && (Peek(s, q) == Space || Peek(s, q) == Nul)
    decreases |s| - p
  {
    if p < |s| && s[p] != Space && s[p] != Nul then SkipToken(s, p + 1) else p
  }

  /** Every byte `SkipSpaces` passes over is a space, so where it stops is the first
      non-space from `p` on. */
  lemma {:induction false} SkipSpacesFirst(s: seq<Byte>, p: nat)
    requires p <= |s|
    ensures forall i :: p <= i < SkipSpaces(s, p) ==> s[i] == Space
    decreases |s| - p
  {
    if p < |s| && s[p] == Space {
      SkipSpacesFirst(s, p + 1);
    }
  }

  /** Every byte `SkipToken` passes over is neither a space nor the terminator, so
      where it stops is the first separator from `p` on. */
  lemma {:induction false} SkipTokenFirst(s: seq<Byte>, p: nat)
    requires p <= |s|
    ensures forall i :: p <= i < SkipToken(s, p) ==> s[i] != Space && s[i] != Nul
    decreases |s| - p
  {
    if p < |s| && s[p] != Space && s[p] != Nul {
      SkipTokenFirst(s, p + 1);
    }
  }

  /** End of the run of hex digits that starts at `p`. */
  function HexEnd(s: seq<Byte>, p: nat): (q: nat)
    requires p <= |s|
    ensures p <= q <= |s|
    ensures forall i :: p <= i < q ==> IsHexDigit(s[i])
    ensures q == |s| || !IsHexDigit(s[q])
    decreases |s| - p
  {
    if p < |s| && IsHexDigit(s[p]) then HexEnd(s, p + 1) else p
  }

  datatype Option<T> = None | Some(value: T)

  /** `sscanf(ptr, "%x", &value)` at a token start: the value of the leading run of
      hex digits, or no conversion when the token does not start with one. */
  function ScanHex(s: seq<Byte>, p: nat): (r: Option<nat>)
    requires p <= |s|
    ensures r.Some? <==> p < |s| && IsHexDigit(s[p])
    ensures r.Some? ==> r.value == HexValue(s[p..HexEnd(s, p)])
  {
    if p < |s| && IsHexDigit(s[p]) then Some(HexValue(s[p..HexEnd(s, p)])) else None
  }

  /** `(char)(value ^ 0xAA)`: the low byte of the value, XORed with the key. The
      low byte is taken first, which is the same as truncating the result. */
  function Unmask(value: nat): Byte {
    XorKey(value % 256)
  }

  /** Taking the low byte first gives the low byte of the full result. */
  lemma UnmaskIsLowByte(value: nat)
    ensures Unmask(value) == Xor(value, Key) % 256
  {
    ByteModulus();
    XorLow(value, Key, 8);
  }

  lemma ByteModulus()
    ensures Pow2(8) == 256
  {
  }

  /** The bytes one token yields: `(char)(value ^ 0xAA)` when the scan converts it,
      nothing when it does not (cryptor.cpp:59-61). */
  function Emitted(s: seq<Byte>, q: nat): (e: seq<Byte>)
    requires q <= |s|
    ensures |e| <= 1
    ensures |e| == 1 <==> ScanHex(s, q).Some?
  {
    match ScanHex(s, q)
    case Some(v) => [Unmask(v)]
    case None => []
  }

  /** The byte a converted token yields is its value XORed with the key, reduced to a
      byte, as the `(char)` cast does. */
  lemma EmittedValue(s: seq<Byte>, q: nat)
    requires q <= |s| && ScanHex(s, q).Some?
    ensures Emitted(s, q) == [Xor(ScanHex(s, q).value, Key) % 256]
  {
    UnmaskIsLowByte(ScanHex(s, q).value);
  }

  /** What the decode loop of cryptor.cpp:53-64 appends to `result`, starting with
      `ptr` at `p`: nothing at the NUL, otherwise the bytes of the next token after the
      spaces, followed by what the rest of the line yields. */
  function DecodeFrom(s: seq<Byte>, p: nat): seq<Byte>
    requires p <= |s|
    decreases |s| - p
  {
    if Peek(s, p) == Nul then []
    else
      var q := SkipSpaces(s, p);
      if Peek(s, q) == Nul then [] else Emitted(s, q) + DecodeFrom(s, SkipToken(s, q))
  }

  /** A space in front changes nothing. */
  lemma {:induction false} DecodeAtSpace(s: seq<Byte>, p: nat)
    requires p < |s| && s[p] == Space
    ensures DecodeFrom(s, p) == DecodeFrom(s, p + 1)
  {
    assert SkipSpaces(s, p) == SkipSpaces(s, p + 1);
  }

  /** One outer iteration of the decode loop that reaches a token. */
  lemma {:induction false} DecodeStep(s: seq<Byte>, p: nat)
    requires p <= |s| && Peek(s, p) != Nul && Peek(s, SkipSpaces(s, p)) != Nul
    ensures DecodeFrom(s, p)
            == Emitted(s, SkipSpaces(s, p)) + DecodeFrom(s, SkipToken(s, SkipSpaces(s, p)))
  {
  }

  /** Moving the front of the remainder `b + c` of `w` onto the prefix `a`. */
  lemma ShiftPrefix(a: seq<Byte>, b: seq<Byte>, c: seq<Byte>, w: seq<Byte>)
    requires a + (b + c) == w
    ensures (a + b) + c == w
  {
    assert (a + b) + c == a + (b + c);
  }

  /** One outer iteration of the decode loop that reaches a token, after `acc` has
      been decoded from the front of the line: `acc` extended by the token's byte is
      still a prefix of what the whole line yields. */
  lemma {:induction false} DecodeShift(s: seq<Byte>, p: nat, acc: seq<Byte>)
    requires p <= |s| && Peek(s, p) != Nul && Peek(s, SkipSpaces(s, p)) != Nul
    requires acc + DecodeFrom(s, p) == DecodeFrom(s, 0)
    ensures (acc + Emitted(s, SkipSpaces(s, p))) + DecodeFrom(s, SkipToken(s, SkipSpaces(s, p)))
            == DecodeFrom(s, 0)
  {
    var q := SkipSpaces(s, p);
    DecodeStep(s, p);
    ShiftPrefix(acc, Emitted(s, q), DecodeFrom(s, SkipToken(s, q)), DecodeFrom(s, 0));
  }

  /** The pointer moves past a space it starts on, and past a token that yields a
      byte. */
  lemma {:induction false} TokenAdvance(s: seq<Byte>, p: nat)
    requires p < |s|
    ensures s[p] == Space ==> SkipSpaces(s, p) > p
    ensures var q := SkipSpaces(s, p); q < |s| && IsHexDigit(s[q]) ==> SkipToken(s, q) > q
  {
    if s[p] == Space {
      assert SkipSpaces(s, p) == SkipSpaces(s, p + 1);
    }
  }

  /** One round of the decode loop, on the line as a sequence: from a pointer at the
      start or on a space, with `len` bytes decoded so far and the next token not
      at the terminator, the token's byte extends the decoded prefix, and the bytes
      decoded stay at most half the distance covered. */
  lemma {:induction false} DecodeRound(s: seq<Byte>, p: nat, acc: seq<Byte>, len: nat)
    requires p < |s| && s[p] != Nul && (p == 0 || s[p] == Space) && 2 * len <= p + 1
    requires acc + DecodeFrom(s, p) == DecodeFrom(s, 0)
    requires Peek(s, SkipSpaces(s, p)) != Nul
    ensures var q := SkipSpaces(s, p);
            (acc + Emitted(s, q)) + DecodeFrom(s, SkipToken(s, q)) == DecodeFrom(s, 0) &&
            2 * (len + |Emitted(s, q)|) <= SkipToken(s, q) + 1 &&
            p < SkipToken(s, q)
  {
    DecodeShift(s, p, acc);
    RoundLength(s, p, len);
    TokenMoves(s, p);
  }

  /** A round that reaches a token moves the pointer past it. */
  lemma TokenMoves(s: seq<Byte>, p: nat)
    requires p <= |s| && Peek(s, SkipSpaces(s, p)) != Nul
    ensures p < SkipToken(s, SkipSpaces(s, p))
  {
    var q := SkipSpaces(s, p);
    assert SkipToken(s, q) == SkipToken(s, q + 1);
  }

  /** The bytes decoded stay at most half the distance the pointer has covered: a byte
      needs a token, and a token after the first needs a space before it. */
  lemma {:induction false} RoundLength(s: seq<Byte>, p: nat, len: nat)
    requires p < |s| && (p == 0 || s[p] == Space) && 2 * len <= p + 1
    ensures var q := SkipSpaces(s, p); 2 * (len + |Emitted(s, q)|) <= SkipToken(s, q) + 1
  {
    TokenAdvance(s, p);
  }

  /** `while (*ptr == ' ') ptr++;` (cryptor.cpp:54-55) on a NUL-terminated buffer:
      stops at the first non-space, never past the terminator. */
  method SkipSpacesAt(data: array<Byte>, p: nat) returns (q: nat)
    requires Nul in data[..] && p <= NulIndex(data[..])
    ensures q == SkipSpaces(data[..], p) && q <= NulIndex(data[..])
  {
    ghost var w := NulIndex(data[..]);
    q := p;
    while data[q] == Space
      invariant p <= q <= w
      invariant SkipSpaces(data[..], q) == SkipSpaces(data[..], p)
      decreases w - q
    {
      q := q + 1;
    }
  }

  /** `while (*ptr != ' ' && *ptr != '\0') ptr++;` (cryptor.cpp:62-63): stops at the
      space or NUL that ends the token. */
  method SkipTokenAt(data: array<Byte>, p: nat) returns (q: nat)
    requires Nul in data[..] && p <= NulIndex(data[..])
    ensures q == SkipToken(data[..], p) && q <= NulIndex(data[..])
  {
    ghost var w := NulIndex(data[..]);
    q := p;
    while data[q] != Space && data[q] != Nul
      invariant p <= q <= w
      invariant SkipToken(data[..], q) == SkipToken(data[..], p)
      decreases w - q
    {
      q := q + 1;
    }
  }

  /** `if (sscanf(ptr, "%x", &value) == 1) result[resultLen++] = (char)(value ^ 0xAA);`
      (cryptor.cpp:59-61): appends the token's byte, if any, to `result[..len]`. */
  method ScanInto(data: array<Byte>, p: nat, result: array<Byte>, len: nat) returns (newLen: nat)
    requires p <= data.Length && len < result.Length && data != result
    modifies result
    ensures newLen == len + |Emitted(data[..], p)|
    ensures result[..newLen] == old(result[..len]) + Emitted(data[..], p)
  {
    var scanned := ScanHex(data[..], p);
    newLen := len;
    if scanned.Some? {
      result[len] := Unmask(scanned.value);
      newLen := len + 1;
    }
  }

  /** The decode loop (cryptor.cpp:49-65) on the line `getline` left in the 128-byte
      buffer `data`: the bytes written to `result` before its terminator. A byte needs
      a token and every token but the first a space before it, so at most 64 bytes
      come out; `result` never overflows and the terminator write stays in bounds. */
  method DecodeLine(data: array<Byte>) returns (r: seq<Byte>)
    requires data.Length == 128 && Nul in data[..]
    ensures r == DecodeFrom(data[..], 0)
    ensures |r| <= 64
  {
    ghost var s := data[..];
    ghost var w := NulIndex(s);
    var result := new Byte[128];
    var resultLen: nat := 0;
    var ptr := 0;
    while data[ptr] != Nul
      invariant 0 <= ptr <= w
      invariant ptr == 0 || data[ptr] == Space || data[ptr] == Nul
      invariant 2 * resultLen <= ptr + 1
      invariant result[..resultLen] + DecodeFrom(s, ptr) == DecodeFrom(s, 0)
      decreases w - ptr
    {
      ghost var start, before, count := ptr, result[..resultLen], resultLen;
      ptr := SkipSpacesAt(data, ptr);
      if data[ptr] == Nul {
        break;
      }
      resultLen := ScanInto(data, ptr, result, resultLen);
      ptr := SkipTokenAt(data, ptr);
      DecodeRound(s, start, before, count);
    }
    result[resultLen] := Nul;
    r := result[..resultLen];
  }

  // ------------------------------------------------------------ round trip

  /** A run of hex digits ended by a space is one token: the scan's digits and the
      token both end at the space. */
  lemma {:induction false} DigitRunEnds(s: seq<Byte>, p: nat, e: nat)
    requires p <= e < |s| && s[e] == Space
    requires forall i :: p <= i < e ==> IsHexDigit(s[i])
    ensures HexEnd(s, p) == e && SkipToken(s, p) == e
    decreases e - p
  {
    if p < e {
      assert IsHexDigit(s[p]);
      DigitRunEnds(s, p + 1, e);
    }
  }

  /** Unmasking the value of a printed byte gives back the byte XORed with the key. */
  lemma UnmaskByte(b: Byte)
    ensures Unmask(b) == XorKey(b)
  {
    assert b % 256 == b;
  }

  /** `t` sits in `s` from position `p` on. */
  predicate At(s: seq<Byte>, p: nat, t: seq<Byte>) {
    p + |t| <= |s| && forall i :: 0 <= i < |t| ==> s[p + i] == t[i]
  }

  /** Where `h + [Space] + rest` sits in `s`, so do its three parts. */
  lemma AtSplit(s: seq<Byte>, p: nat, h: seq<Byte>, rest: seq<Byte>)
    requires At(s, p, h + [Space] + rest)
    ensures At(s, p, h) && s[p + |h|] == Space && At(s, p + |h| + 1, rest)
  {
    var t := h + [Space] + rest;
    assert s[p + |h|] == t[|h|];
    forall i | 0 <= i < |h|
      ensures s[p + i] == h[i]
    {
      assert s[p + i] == t[i];
    }
    forall i | 0 <= i < |rest|
      ensures s[p + |h| + 1 + i] == rest[i]
    {
      assert s[p + (|h| + 1 + i)] == t[|h| + 1 + i];
    }
  }

  /** A token that prints a byte, followed by a space, is one run of hex digits: the
      scan and the token skip both end at the space. */
  lemma {:induction false} TokenBounds(s: seq<Byte>, p: nat, h: seq<Byte>, b: Byte)
    requires PrintsAs(h, b) && At(s, p, h)
    requires p + |h| < |s| && s[p + |h|] == Space
    ensures HexEnd(s, p) == p + |h| && SkipToken(s, p) == p + |h|
    ensures s[p..p + |h|] == h
  {
    var e := p + |h|;
    forall i | p <= i < e
      ensures IsHexDigit(s[i])
    {
      assert s[p + (i - p)] == h[i - p];
    }
    DigitRunEnds(s, p, e);
  }

  /** A token that prints byte `b`, followed by a space, decodes to `b` XORed with the
      key, and decoding goes on after the space. */
  lemma {:induction false} DecodeToken(s: seq<Byte>, p: nat, h: seq<Byte>, b: Byte)
    requires PrintsAs(h, b) && At(s, p, h)
    requires p + |h| < |s| && s[p + |h|] == Space
    ensures DecodeFrom(s, p) == [XorKey(b)] + DecodeFrom(s, p + |h| + 1)
  {
    TokenEmits(s, p, h, b);
    DecodeThroughToken(s, p, p + |h|, [XorKey(b)]);
  }

  /** The token that starts at `p` (no space before it) yields `e` and ends at the
      space at `q`. */
  predicate TokenAt(s: seq<Byte>, p: nat, q: nat, e: seq<Byte>) {
    p < q < |s| && s[q] == Space && s[p] != Nul && SkipSpaces(s, p) == p &&
    Emitted(s, p) == e && SkipToken(s, p) == q
  }

  /** A token at `p` that yields `e` and ends at the space at `q`: decoding from `p`
      yields `e`, then goes on after the space. */
  lemma {:induction false} DecodeThroughToken(s: seq<Byte>, p: nat, q: nat, e: seq<Byte>)
    requires TokenAt(s, p, q, e)
    ensures DecodeFrom(s, p) == e + DecodeFrom(s, q + 1)
  {
    DecodeAtSpace(s, q);
    DecodeStep(s, p);
  }

  /** Such a token starts with a digit, yields `b` XORed with the key, and ends at
      the space. */
  lemma {:induction false} TokenEmits(s: seq<Byte>, p: nat, h: seq<Byte>, b: Byte)
    requires PrintsAs(h, b) && At(s, p, h)
    requires p + |h| < |s| && s[p + |h|] == Space
    ensures TokenAt(s, p, p + |h|, [XorKey(b)])
  {
    TokenBounds(s, p, h, b);
    assert s[p + 0] == h[0];
    UnmaskByte(b);
  }

  /** The tokens `ts` print the bytes `c` and sit joined in `s` from `p` on, with the
      terminator right after them. */
  predicate LineAt(s: seq<Byte>, p: nat, ts: seq<seq<Byte>>, c: seq<Byte>) {
    |ts| == |c| && (forall i :: 0 <= i < |c| ==> PrintsAs(ts[i], c[i])) &&
    At(s, p, Join(ts)) && p + |Join(ts)| < |s| && s[p + |Join(ts)|] == Nul
  }

  /** Decoding tokens that print the bytes `c`, joined and followed by the terminator,
      yields each byte XORed with the key. */
  lemma {:induction false} DecodeJoined(s: seq<Byte>, p: nat, ts: seq<seq<Byte>>, c: seq<Byte>)
    requires LineAt(s, p, ts, c)
    ensures DecodeFrom(s, p) == Crypt(c, |c|)
    decreases |c|
  {
    if |c| == 0 {
      LineEmpty(s, p, ts, c);
    } else {
      LineTail(s, p, ts, c);
      DecodeJoined(s, p + |ts[0]| + 1, ts[1..], c[1..]);
      DecodeCons(s, p, ts[0], c);
    }
  }

  /** A line with no tokens is the terminator alone and decodes to nothing. */
  lemma LineEmpty(s: seq<Byte>, p: nat, ts: seq<seq<Byte>>, c: seq<Byte>)
    requires LineAt(s, p, ts, c) && |c| == 0
    ensures DecodeFrom(s, p) == [] == Crypt(c, |c|)
  {
    assert Peek(s, p) == Nul;
  }

  /** The first token of a line, followed by its space, and the rest of the line. */
  lemma LineTail(s: seq<Byte>, p: nat, ts: seq<seq<Byte>>, c: seq<Byte>)
    requires LineAt(s, p, ts, c) && |c| > 0
    ensures PrintsAs(ts[0], c[0]) && At(s, p, ts[0])
    ensures p + |ts[0]| < |s| && s[p + |ts[0]|] == Space
    ensures LineAt(s, p + |ts[0]| + 1, ts[1..], c[1..])
  {
    JoinCons(ts);
    AtSplit(s, p, ts[0], Join(ts[1..]));
    PrintsAsTail(ts, c);
  }

  /** Dropping the first token and its byte keeps the tokens printing the bytes. */
  lemma PrintsAsTail(ts: seq<seq<Byte>>, c: seq<Byte>)
    requires |ts| == |c| > 0 && forall i :: 0 <= i < |c| ==> PrintsAs(ts[i], c[i])
    ensures PrintsAs(ts[0], c[0])
    ensures forall i :: 0 <= i < |c[1..]| ==> PrintsAs(ts[1..][i], c[1..][i])
  {
    forall i | 0 <= i < |c[1..]|
      ensures PrintsAs(ts[1..][i], c[1..][i])
    {
      assert ts[1..][i] == ts[i + 1] && c[1..][i] == c[i + 1];
    }
  }

  /** The first token and its space come first; the terminator after the whole line is
      the one after the remaining tokens. */
  lemma JoinCons(ts: seq<seq<Byte>>)
    requires |ts| > 0
    ensures Join(ts) == ts[0] + [Space] + Join(ts[1..])
    ensures |Join(ts)| == |ts[0]| + 1 + |Join(ts[1..])|
  {
  }

  lemma CryptCons(c: seq<Byte>)
    requires |c| > 0
    ensures Crypt(c, |c|) == [XorKey(c[0])] + Crypt(c[1..], |c[1..]|)
  {
  }

  /** A token printing `c[0]`, then a space and a rest that decodes to the rest of `c`
      XORed with the key, decodes to all of `c` XORed with the key. */
  lemma DecodeCons(s: seq<Byte>, p: nat, h: seq<Byte>, c: seq<Byte>)
    requires |c| > 0 && PrintsAs(h, c[0]) && At(s, p, h)
    requires p + |h| < |s| && s[p + |h|] == Space
    requires DecodeFrom(s, p + |h| + 1) == Crypt(c[1..], |c[1..]|)
    ensures DecodeFrom(s, p) == Crypt(c, |c|)
  {
    DecodeToken(s, p, h, c[0]);
    CryptCons(c);
  }

  /** Tokens of at most two characters join to at most three characters each. */
  lemma {:induction false} JoinLength(ts: seq<seq<Byte>>)
    requires forall i :: 0 <= i < |ts| ==> |ts[i]| <= 2
    ensures |Join(ts)| <= 3 * |ts|
    decreases |ts|
  {
    if |ts| > 0 {
      assert forall i :: 0 <= i < |ts[1..]| ==> |ts[1..][i]| <= 2 by {
        forall i | 0 <= i < |ts[1..]|
          ensures |ts[1..][i]| <= 2
        {
          assert ts[1..][i] == ts[i + 1];
        }
      }
      JoinLength(ts[1..]);
    }
  }

  /** A ciphertext of at most 42 bytes prints as at most 126 characters, so its hex line
      fits the 127 characters `getline(data, 128)` accepts. */
  lemma HexLineFits(c: seq<Byte>)
    requires |c| <= 42
    ensures |HexLine(c)| <= 126
  {
    JoinLength(Printed(c));
  }

  /** Decoding the printed hex line of a ciphertext, followed by the terminator, yields
      the ciphertext XORed with the key. */
  lemma {:induction false} DecodeHexLine(s: seq<Byte>, p: nat, c: seq<Byte>)
    requires p + |HexLine(c)| < |s|
    requires s[p..p + |HexLine(c)|] == HexLine(c) && s[p + |HexLine(c)|] == Nul
    ensures DecodeFrom(s, p) == Crypt(c, |c|)
  {
    var line := HexLine(c);
    forall i | 0 <= i < |line|
      ensures s[p + i] == line[i]
    {
      assert s[p + i] == s[p..p + |line|][i];
    }
    DecodeJoined(s, p, Printed(c), c);
  }

  /** Encrypting a plaintext, printing the ciphertext in hex and feeding that line back
      to the decode loop gives the plaintext back, provided the line fits the input
      buffer. */
  lemma {:induction false} EncryptPrintDecode(plain: seq<Byte>, data: seq<Byte>)
    requires |data| == 128
    requires |HexLine(Crypt(plain, |plain|))| <= 127
    requires data[..|HexLine(Crypt(plain, |plain|))|] == HexLine(Crypt(plain, |plain|))
    requires data[|HexLine(Crypt(plain, |plain|))|] == Nul
    ensures DecodeFrom(data, 0) == plain
  {
    var c := Crypt(plain, |plain|);
    DecodeHexLine(data, 0, c);
    CryptInvolution(plain, |plain|);
  }
}
