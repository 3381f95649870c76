/** Field encryption: standard base64 (RFC 4648, section 4) as the Go library reads it, and the
    AES-256-GCM boxes of backend/internal/crypto/field_encryption.go. */
module Base64 {
  import opened Options

  type Byte = b: int | 0 <= b < 256

  type Bytes = seq<Byte>

  const PAD: Byte := 0x3D
  const LF: Byte := 0x0A
  const CR: Byte := 0x0D

  type Sextet = v: int | 0 <= v < 64

  function Symbol(v: Sextet): Byte {
    if v < 26 then 0x41 + v
    else if v < 52 then 0x61 + v - 26
    else if v < 62 then 0x30 + v - 52
    else if v == 62 then 0x2B
    else 0x2F
  }

  predicate IsSymbol(c: Byte) {
    0x41 <= c <= 0x5A || 0x61 <= c <= 0x7A || 0x30 <= c <= 0x39 || c == 0x2B || c == 0x2F
  }

  function Value(c: Byte): Sextet
    requires IsSymbol(c)
  {
    if 0x41 <= c <= 0x5A then c - 0x41
    else if 0x61 <= c <= 0x7A then c - 0x61 + 26
    else if 0x30 <= c <= 0x39 then c - 0x30 + 52
    else if c == 0x2B then 62
    else 63
  }

  lemma SymbolsInvert(v: Sextet, c: Byte)
    ensures IsSymbol(Symbol(v)) && Value(Symbol(v)) == v
    ensures IsSymbol(c) ==> Symbol(Value(c)) == c
    ensures !IsSymbol(PAD) && !IsSymbol(LF) && !IsSymbol(CR)
  {
  }

  /** The alphabet of RFC 4648, table 1: its corners, and the runs between them. */
  lemma SymbolsAreTheAlphabet(v: Sextet)
    ensures Symbol(0) == 'A' as int && Symbol(25) == 'Z' as int && Symbol(26) == 'a' as int && Symbol(51) == 'z' as int
    ensures Symbol(52) == '0' as int && Symbol(61) == '9' as int && Symbol(62) == '+' as int && Symbol(63) == '/' as int
    ensures v < 62 && v != 25 && v != 51 && v != 61 ==> Symbol(v + 1) == Symbol(v) + 1
    ensures PAD == '=' as int && LF == '\n' as int && CR == '\r' as int
  {
  }

  // ---- Groups of three bytes and four symbols ----

  function Quad(a: Byte, b: Byte, c: Byte): (q: Bytes)
    ensures |q| == 4
  {
    [Symbol(a / 4), Symbol(a % 4 * 16 + b / 16), Symbol(b % 16 * 4 + c / 64), Symbol(c % 64)]
  }

  function Encode(data: Bytes): Bytes {
    if data == [] then []
    else if |data| == 1 then Quad(data[0], 0, 0)[..2] + [PAD, PAD]
    else if |data| == 2 then Quad(data[0], data[1], 0)[..3] + [PAD]
    else Quad(data[0], data[1], data[2]) + Encode(data[3..])
  }

  function Triple(q: Bytes): (t: Bytes)
    requires |q| == 4 && forall k :: 0 <= k < 4 ==> IsSymbol(q[k])
    ensures |t| == 3
  {
    var w, x, y, z := Value(q[0]), Value(q[1]), Value(q[2]), Value(q[3]);
    [w * 4 + x / 16, x % 16 * 16 + y / 4, y % 4 * 64 + z]
  }

  /** Reading symbols with no line breaks among them; bits past the end are ignored. */
  function DecodeSymbols(s: Bytes): Option<Bytes> {
    if s == [] then Some([])
    else if |s| < 4 || !IsSymbol(s[0]) || !IsSymbol(s[1]) then None
    else if |s| == 4 && s[3] == PAD && s[2] == PAD then Some(Triple([s[0], s[1], Symbol(0), Symbol(0)])[..1])
    else if !IsSymbol(s[2]) then None
    else if |s| == 4 && s[3] == PAD then Some(Triple([s[0], s[1], s[2], Symbol(0)])[..2])
    else if !IsSymbol(s[3]) then None
    else
      match DecodeSymbols(s[4..])
      case None => None
      case Some(rest) => Some(Triple(s[..4]) + rest)
  }

  /** The library skips carriage returns and line feeds wherever they stand. */
  function Unbroken(s: Bytes): Bytes {
    if s == [] then [] else (if s[0] == LF || s[0] == CR then [] else [s[0]]) + Unbroken(s[1..])
  }

  function Decode(s: Bytes): Option<Bytes> { DecodeSymbols(Unbroken(s)) }

  /** Cutting three bytes into sextets and back, as arithmetic. */
  lemma Sextets(a: Byte, b: Byte, c: Byte)
    ensures var w, x, y, z := a / 4, a % 4 * 16 + b / 16, b % 16 * 4 + c / 64, c % 64;
            && 0 <= w < 64 && 0 <= x < 64 && 0 <= y < 64 && 0 <= z < 64
            && w * 4 + x / 16 == a && x % 16 * 16 + y / 4 == b && y % 4 * 64 + z == c
  {
  }

  lemma QuadTriple(a: Byte, b: Byte, c: Byte)
    ensures forall k :: 0 <= k < 4 ==> IsSymbol(Quad(a, b, c)[k])
    ensures Triple(Quad(a, b, c)) == [a, b, c]
  {
    Sextets(a, b, c);
    var w, x, y, z := a / 4, a % 4 * 16 + b / 16, b % 16 * 4 + c / 64, c % 64;
    SymbolsInvert(w, 0);
    SymbolsInvert(x, 0);
    SymbolsInvert(y, 0);
    SymbolsInvert(z, 0);
    assert Quad(a, b, c) == [Symbol(w), Symbol(x), Symbol(y), Symbol(z)];
  }

  lemma OneByteDecodes(a: Byte)
    ensures DecodeSymbols(Encode([a])) == Some([a])
  {
    var q, s := Quad(a, 0, 0), Encode([a]);
    QuadTriple(a, 0, 0);
    assert s == [q[0], q[1], PAD, PAD];
    assert q == [s[0], s[1], Symbol(0), Symbol(0)];
    assert Triple(q)[..1] == [a];
  }

  lemma TwoBytesDecode(a: Byte, b: Byte)
    ensures DecodeSymbols(Encode([a, b])) == Some([a, b])
  {
    var q, s := Quad(a, b, 0), Encode([a, b]);
    QuadTriple(a, b, 0);
    SymbolsInvert(0, PAD);
    assert s == [q[0], q[1], q[2], PAD];
    assert q == [s[0], s[1], s[2], Symbol(0)];
    assert Triple(q)[..2] == [a, b];
    assert s[2] != PAD;
  }

  lemma GroupDecodes(q: Bytes, rest: Bytes)
    requires |q| == 4 && forall k :: 0 <= k < 4 ==> IsSymbol(q[k])
    requires DecodeSymbols(rest).Some?
    ensures DecodeSymbols(q + rest) == Some(Triple(q) + DecodeSymbols(rest).value)
  {
    var s := q + rest;
    assert s[..4] == q && s[4..] == rest;
    assert IsSymbol(s[0]) && IsSymbol(s[1]) && IsSymbol(s[2]) && IsSymbol(s[3]);
    SymbolsInvert(0, PAD);
  }

  lemma {:induction false} SymbolsDecode(data: Bytes)
    ensures DecodeSymbols(Encode(data)) == Some(data)
  {
    hide Quad, Triple;
    if |data| == 1 {
      OneByteDecodes(data[0]);
      assert data == [data[0]];
    } else if |data| == 2 {
      TwoBytesDecode(data[0], data[1]);
      assert data == [data[0], data[1]];
    } else if |data| > 2 {
      SymbolsDecode(data[3..]);
      QuadTriple(data[0], data[1], data[2]);
      GroupDecodes(Quad(data[0], data[1], data[2]), Encode(data[3..]));
      assert data == [data[0], data[1], data[2]] + data[3..];
    }
  }

  // ---- What the encoding says, and what decodes ----

  /** Three bytes and their four symbols are one number, read to the bases 256 and 64. */
  lemma GroupIsNumber(a: Byte, b: Byte, c: Byte)
    ensures forall k :: 0 <= k < 4 ==> IsSymbol(Quad(a, b, c)[k])
    ensures var q := Quad(a, b, c);
            ((Value(q[0]) * 64 + Value(q[1])) * 64 + Value(q[2])) * 64 + Value(q[3]) == (a * 256 + b) * 256 + c
  {
    QuadTriple(a, b, c);
    var w, x, y, z := a / 4, a % 4 * 16 + b / 16, b % 16 * 4 + c / 64, c % 64;
    Sextets(a, b, c);
    SymbolsInvert(w, 0);
    SymbolsInvert(x, 0);
    SymbolsInvert(y, 0);
    SymbolsInvert(z, 0);
  }

  /** Groups are encoded one after the other. */
  lemma {:induction false} EncodeAppends(a: Bytes, b: Bytes)
    requires |a| % 3 == 0
    ensures Encode(a + b) == Encode(a) + Encode(b)
  {
    hide Quad;
    if a == [] {
      assert a + b == b;
    } else if |a + b| == 3 {
      assert a + b == a && b == [];
    } else {
      assert |a[3..]| % 3 == 0;
      EncodeAppends(a[3..], b);
      assert (a + b)[3..] == a[3..] + b;
      assert (a + b)[0] == a[0] && (a + b)[1] == a[1] && (a + b)[2] == a[2];
    }
  }

  /** One or two bytes are encoded as if zeros followed, with a pad for each of the zeros. */
  lemma PaddingExactly(a: Byte, b: Byte)
    ensures Encode([a]) == Encode([a, 0, 0])[..2] + [PAD, PAD]
    ensures Encode([a, b]) == Encode([a, b, 0])[..3] + [PAD]
  {
    assert [a, 0, 0][3..] == [] && [a, b, 0][3..] == [];
  }

  /** Symbols in groups of four, the last one or two of which may be pads. */
  ghost predicate WellFormed(s: Bytes) {
    |s| % 4 == 0 && exists pads :: 0 <= pads <= 2 && EndsIn(s, pads)
  }

  ghost predicate EndsIn(s: Bytes, pads: int) {
    && 0 <= pads <= |s|
    && (forall k :: 0 <= k < |s| - pads ==> IsSymbol(s[k]))
    && (forall k :: |s| - pads <= k < |s| ==> s[k] == PAD)
  }

  /** Exactly the well-formed texts decode. */
  lemma {:induction false} DecodesExactly(s: Bytes)
    ensures DecodeSymbols(s).Some? <==> WellFormed(s)
  {
    hide Value, Triple;
    SymbolsInvert(0, PAD);
    if |s| == 0 {
      assert EndsIn(s, 0);
    } else if |s| < 4 {
    } else if |s| == 4 {
      assert s[4..] == [];
      if DecodeSymbols(s).Some? {
        assert EndsIn(s, if s[3] != PAD then 0 else if s[2] != PAD then 1 else 2);
      }
    } else {
      var rest := s[4..];
      DecodesExactly(rest);
      assert |rest| == |s| - 4 && |rest| % 4 == |s| % 4;
      if WellFormed(s) {
        var pads :| 0 <= pads <= 2 && EndsIn(s, pads);
        assert EndsIn(rest, pads);
        assert IsSymbol(s[0]) && IsSymbol(s[1]) && IsSymbol(s[2]) && IsSymbol(s[3]);
      }
      if DecodeSymbols(s).Some? {
        var pads :| 0 <= pads <= 2 && EndsIn(rest, pads);
        forall k | 0 <= k < |s| - pads ensures IsSymbol(s[k]) {
          assert k >= 4 ==> s[k] == rest[k - 4];
        }
        forall k | |s| - pads <= k < |s| ensures s[k] == PAD {
          assert s[k] == rest[k - 4];
        }
        assert EndsIn(s, pads);
      }
    }
  }

  lemma Bytes3(w: Sextet, x: Sextet, y: Sextet, z: Sextet)
    ensures var a, b, c := w * 4 + x / 16, x % 16 * 16 + y / 4, y % 4 * 64 + z;
            && 0 <= a < 256 && 0 <= b < 256 && 0 <= c < 256
            && a / 4 == w && a % 4 * 16 + b / 16 == x && b % 16 * 4 + c / 64 == y && c % 64 == z
  {
  }

  lemma TripleQuad(q: Bytes)
    requires |q| == 4 && forall k :: 0 <= k < 4 ==> IsSymbol(q[k])
    ensures var t := Triple(q); Quad(t[0], t[1], t[2]) == q
  {
    hide Value, Symbol, IsSymbol;
    var w: int, x: int, y: int, z: int := Value(q[0]), Value(q[1]), Value(q[2]), Value(q[3]);
    SymbolsInvert(0, q[0]);
    SymbolsInvert(0, q[1]);
    SymbolsInvert(0, q[2]);
    SymbolsInvert(0, q[3]);
    var t := Triple(q);
    assert t[0] == w * 4 + x / 16 && t[1] == x % 16 * 16 + y / 4 && t[2] == y % 4 * 64 + z;
    Bytes3(w, x, y, z);
    assert Quad(t[0], t[1], t[2]) == [Symbol(w), Symbol(x), Symbol(y), Symbol(z)];
  }

  lemma QuadStarts(a: Byte, b: Byte, c: Byte)
    ensures Quad(a, 0, 0)[0] == Quad(a, b, c)[0]
    ensures Quad(a, b, 0)[..2] == Quad(a, b, c)[..2]
  {
    assert Quad(a, b, 0)[0] == Quad(a, b, c)[0] && Quad(a, b, 0)[1] == Quad(a, b, c)[1];
  }

  /** The place of a symbol whose low bits the padding cuts off. */
  predicate Cut(s: Bytes, k: nat)
    requires k < |s|
  {
    k + 1 < |s| && s[k] != PAD && s[k + 1] == PAD
  }

  /** Whatever decodes is the encoding of what it decodes to, but for the bits that padding cuts off. */
  lemma {:induction false} DecodedAgrees(s: Bytes)
    requires DecodeSymbols(s).Some?
    ensures var t := Encode(DecodeSymbols(s).value);
            |t| == |s| && forall k: nat | k < |s| && !Cut(s, k) :: t[k] == s[k]
  {
    SymbolsInvert(0, PAD);
    if |s| == 4 && s[3] == PAD {
      LastGroupAgrees(s);
    } else if |s| > 0 {
      var rest := s[4..];
      DecodedAgrees(rest);
      TripleQuad(s[..4]);
      var d, t := DecodeSymbols(s).value, Encode(DecodeSymbols(s).value);
      assert d == Triple(s[..4]) + DecodeSymbols(rest).value && d[3..] == DecodeSymbols(rest).value;
      assert t == s[..4] + Encode(DecodeSymbols(rest).value);
      forall k: nat | k < |s| && !Cut(s, k) ensures t[k] == s[k] {
        if k >= 4 {
          assert s[k] == rest[k - 4] && !Cut(rest, k - 4);
        }
      }
    }
  }

  lemma LastGroupAgrees(s: Bytes)
    requires |s| == 4 && s[3] == PAD && DecodeSymbols(s).Some?
    ensures var t := Encode(DecodeSymbols(s).value);
            |t| == |s| && forall k: nat | k < |s| && !Cut(s, k) :: t[k] == s[k]
  {
    SymbolsInvert(0, PAD);
    hide Quad, Triple, Value, Symbol, IsSymbol;
    var zero := Symbol(0);
    var q := if s[2] == PAD then [s[0], s[1], zero, zero] else [s[0], s[1], s[2], zero];
    TripleQuad(q);
    var b := Triple(q);
    QuadStarts(b[0], b[1], b[2]);
    if s[2] == PAD {
      assert q == [s[0], s[1], Symbol(0), Symbol(0)] && b[..1] == [b[0]];
      assert DecodeSymbols(s) == Some([b[0]]);
      assert Encode([b[0]]) == [Quad(b[0], 0, 0)[0], Quad(b[0], 0, 0)[1], PAD, PAD];
    } else {
      assert q == [s[0], s[1], s[2], Symbol(0)] && b[..2] == [b[0], b[1]];
      assert DecodeSymbols(s) == Some([b[0], b[1]]);
      var r := Quad(b[0], b[1], 0);
      assert r[0] == q[0] && r[1] == q[1] by {
        assert r[0] == r[..2][0] && r[1] == r[..2][1];
      }
      assert Encode([b[0], b[1]]) == [r[0], r[1], r[2], PAD];
    }
  }

  /** Line breaks may stand anywhere in a text, and nothing else may be left out. */
  lemma {:induction false} BreaksDoNotMatter(a: Bytes, c: Byte, b: Bytes)
    requires c == LF || c == CR
    ensures Unbroken(a + [c] + b) == Unbroken(a + b)
    ensures Decode(a + [c] + b) == Decode(a + b)
  {
    if a == [] {
      assert a + [c] + b == [c] + b && ([c] + b)[1..] == b && a + b == b;
    } else {
      BreaksDoNotMatter(a[1..], c, b);
      assert (a + [c] + b)[1..] == a[1..] + [c] + b && (a + b)[1..] == a[1..] + b;
    }
  }

  predicate NoBreaks(s: Bytes) { forall k :: 0 <= k < |s| ==> s[k] != LF && s[k] != CR }

  lemma QuadNoBreaks(a: Byte, b: Byte, c: Byte)
    ensures NoBreaks(Quad(a, b, c))
  {
    var q := Quad(a, b, c);
    QuadTriple(a, b, c);
    forall k | 0 <= k < 4 ensures q[k] != LF && q[k] != CR {
      assert IsSymbol(q[k]);
    }
  }

  lemma Thirds(n: nat)
    ensures (n + 3 + 2) / 3 == (n + 2) / 3 + 1
  {
  }

  lemma {:induction false} EncodeLength(data: Bytes)
    ensures |Encode(data)| == (|data| + 2) / 3 * 4
  {
    hide Quad;
    if |data| > 2 {
      var rest := data[3..];
      EncodeLength(rest);
      Thirds(|rest|);
      assert |data| == |rest| + 3;
    }
  }

  lemma {:induction false} EncodeNoBreaks(data: Bytes)
    ensures NoBreaks(Encode(data))
  {
    hide Quad;
    if |data| > 2 {
      EncodeNoBreaks(data[3..]);
      QuadNoBreaks(data[0], data[1], data[2]);
    } else if |data| == 2 {
      QuadNoBreaks(data[0], data[1], 0);
    } else if |data| == 1 {
      QuadNoBreaks(data[0], 0, 0);
    }
  }

  /** Encoded text has the length RFC 4648 gives it and no line breaks. */
  lemma EncodeShape(data: Bytes)
    ensures |Encode(data)| == (|data| + 2) / 3 * 4 && |Encode(data)| % 4 == 0
    ensures NoBreaks(Encode(data))
  {
    hide Encode, NoBreaks;
    EncodeLength(data);
    EncodeNoBreaks(data);
  }

  lemma {:induction false} UnbrokenSame(s: Bytes)
    requires NoBreaks(s)
    ensures Unbroken(s) == s
  {
    if s != [] {
      UnbrokenSame(s[1..]);
    }
  }

  /** Decoding inverts encoding on every byte string, whatever padding it takes. */
  lemma DecodeInvertsEncode(data: Bytes)
    ensures Decode(Encode(data)) == Some(data)
  {
    EncodeShape(data);
    UnbrokenSame(Encode(data));
    SymbolsDecode(data);
  }

  lemma {:induction false} UnbrokenShrinks(s: Bytes)
    ensures |Unbroken(s)| <= |s|
    ensures |Unbroken(s)| == |s| ==> Unbroken(s) == s
  {
    if s != [] {
      UnbrokenShrinks(s[1..]);
    }
  }

  /** Decoded data is at most three quarters as long, and only whole groups of four decode. */
  lemma {:induction false} SymbolsShrink(s: Bytes)
    ensures DecodeSymbols(s).Some? ==> |s| % 4 == 0 && |DecodeSymbols(s).value| * 4 <= |s| * 3
  {
    hide Value, IsSymbol, Symbol;
    if |s| > 4 {
      var rest := s[4..];
      SymbolsShrink(rest);
      assert |s| == 4 + |rest| && |s| % 4 == |rest| % 4;
      assert DecodeSymbols(s).Some? ==>
               DecodeSymbols(rest).Some? && |DecodeSymbols(s).value| == 3 + |DecodeSymbols(rest).value|;
    }
  }

  lemma DecodeShrinks(s: Bytes)
    ensures Decode(s).Some? ==> |Decode(s).value| * 4 <= |s| * 3
  {
    UnbrokenShrinks(s);
    SymbolsShrink(Unbroken(s));
  }
}

module FieldEncryption {
  import opened Options
  import opened Base64

  const NONCE_SIZE := 12
  const TAG_SIZE := 16

  type Nonce = n: Bytes | |n| == NONCE_SIZE witness seq(NONCE_SIZE, _ => 0)

  /** Sealing and opening under one key. */
  datatype Cipher = Cipher(seal: (Bytes, Bytes) -> Bytes, open: (Bytes, Bytes) -> Option<Bytes>) {
    /** Open inverts Seal, and a box is longer than its plaintext by exactly the tag. */
    ghost predicate Lawful() {
      && (forall n: Nonce, p: Bytes :: |seal(n, p)| == |p| + TAG_SIZE && open(n, seal(n, p)) == Some(p))
      && (forall n: Bytes, c: Bytes :: open(n, c).Some? ==> |c| == |open(n, c).value| + TAG_SIZE)
    }
  }

  /** An AEAD that authenticates nothing; it shows the laws can be met. */
  function PlainCipher(): Cipher {
    var tag: Bytes := seq(TAG_SIZE, _ => 0);
    Cipher((n: Bytes, p: Bytes) => p + tag,
           (n: Bytes, c: Bytes) =>
             if |c| >= TAG_SIZE && c[|c| - TAG_SIZE..] == tag then Some(c[..|c| - TAG_SIZE]) else None)
  }

  lemma PlainCipherIsLawful()
    ensures PlainCipher().Lawful()
  {
    var tag: Bytes := seq(TAG_SIZE, _ => 0);
    forall n: Nonce, p: Bytes
      ensures |PlainCipher().seal(n, p)| == |p| + TAG_SIZE
      ensures PlainCipher().open(n, PlainCipher().seal(n, p)) == Some(p)
    {
      assert (p + tag)[|p|..] == tag && (p + tag)[..|p|] == p;
    }
  }

  datatype Result<+T> = Ok(value: T) | Err

  /** The key is inside the cipher. */
  datatype FieldEncrypter = FieldEncrypter(aead: Cipher) {

    function EncryptBytes(nonce: Nonce, plaintext: Bytes): Bytes {
      if |plaintext| == 0 then [] else nonce + aead.seal(nonce, plaintext)
    }

    function DecryptBytes(ciphertext: Bytes): Result<Bytes> {
      if |ciphertext| == 0 then Ok([])
      else if |ciphertext| < NONCE_SIZE then Err
      else
        match aead.open(ciphertext[..NONCE_SIZE], ciphertext[NONCE_SIZE..])
        case Some(p) => Ok(p)
        case None => Err
    }

    function Encrypt(nonce: Nonce, plaintext: Bytes): Bytes {
      if plaintext == [] then [] else Encode(EncryptBytes(nonce, plaintext))
    }

    /** A text that is not base64 is handed back as it is. */
    function Decrypt(ciphertext: Bytes): Result<Bytes> {
      if ciphertext == [] then Ok([])
      else if !IsBase64(ciphertext) then Ok(ciphertext)
      else
        match Decode(ciphertext)
        case None => Ok(ciphertext)
        case Some(data) => DecryptBytes(data)
    }

    static predicate IsBase64Char(c: Byte) { IsSymbol(c) || c == PAD }

    static predicate IsBase64(s: Bytes) {
      if |s| % 4 != 0 && PAD !in s then forall k :: 0 <= k < |s| ==> IsBase64Char(s[k])
      else Decode(s).Some?
    }

    static predicate IsEncrypted(s: Bytes) { s != [] && |s| >= 44 && IsBase64(s) }

    lemma BoxShape(nonce: Nonce, plaintext: Bytes)
      requires aead.Lawful() && plaintext != []
      ensures var box := EncryptBytes(nonce, plaintext);
              && |box| == |plaintext| + NONCE_SIZE + TAG_SIZE
              && DecryptBytes(box) == Ok(plaintext)
    {
      var box := EncryptBytes(nonce, plaintext);
      assert box[..NONCE_SIZE] == nonce && box[NONCE_SIZE..] == aead.seal(nonce, plaintext);
    }

    static lemma EncodedIsBase64(data: Bytes)
      ensures IsBase64(Encode(data)) && Decode(Encode(data)) == Some(data)
    {
      DecodeInvertsEncode(data);
      EncodeShape(data);
    }

    /** Whatever the plaintext and the nonce, decrypting gives the plaintext back. */
    lemma DecryptInvertsEncrypt(nonce: Nonce, plaintext: Bytes)
      requires aead.Lawful()
      ensures Decrypt(Encrypt(nonce, plaintext)) == Ok(plaintext)
    {
      if plaintext != [] {
        var box := EncryptBytes(nonce, plaintext);
        BoxShape(nonce, plaintext);
        EncodedIsBase64(box);
        EncodeShape(box);
      }
    }

    /** An encrypted value is recognised as one exactly when its plaintext has at least three bytes:
        shorter ones encode to forty characters, under the threshold of forty-four. */
    lemma RecognisedExactly(nonce: Nonce, plaintext: Bytes)
      requires aead.Lawful()
      ensures IsEncrypted(Encrypt(nonce, plaintext)) <==> |plaintext| >= 3
      ensures plaintext != [] ==> |Encrypt(nonce, plaintext)| == (|plaintext| + 30) / 3 * 4
    {
      hide Encode, Decode, EncryptBytes;
      if plaintext != [] {
        var box := EncryptBytes(nonce, plaintext);
        BoxShape(nonce, plaintext);
        EncodedIsBase64(box);
        EncodeShape(box);
      }
    }

    /** What looks encrypted, by its characters: long enough, and either symbols alone in a number that is
        no multiple of four, or well-formed once line breaks are left out. */
    static lemma LooksEncryptedExactly(s: Bytes)
      ensures IsEncrypted(s) <==>
              |s| >= 44 &&
              if |s| % 4 != 0 && PAD !in s then forall k :: 0 <= k < |s| ==> IsSymbol(s[k]) else WellFormed(Unbroken(s))
    {
      hide WellFormed, Unbroken, DecodeSymbols;
      DecodesExactly(Unbroken(s));
      if |s| % 4 != 0 && PAD !in s {
        assert forall k :: 0 <= k < |s| ==> (IsBase64Char(s[k]) <==> IsSymbol(s[k]));
      }
    }

    /** A box is the nonce followed by what was sealed, in base64. */
    lemma EncryptsToABox(nonce: Nonce, plaintext: Bytes)
      ensures Encrypt(nonce, []) == []
      ensures plaintext != [] ==>
                Decode(Encrypt(nonce, plaintext)) == Some(nonce + aead.seal(nonce, plaintext))
    {
      if plaintext != [] {
        DecodeInvertsEncode(EncryptBytes(nonce, plaintext));
      }
    }

    /** Text that does not decode comes back as it is, and so does unpadded text in a number of characters
        that is no multiple of four, even if it decodes because of its line breaks. Of what decodes, data
        shorter than a nonce, or that the cipher does not open, is an error. */
    lemma DecryptExactly(s: Bytes)
      ensures |s| % 4 != 0 && PAD !in s ==> Decrypt(s) == Ok(s)
      ensures !(|s| % 4 != 0 && PAD !in s) ==>
                Decrypt(s) == match Decode(s)
                              case None => Ok(s)
                              case Some(d) =>
                                if d == [] then Ok([])
                                else if |d| < 12 then Err
                                else match aead.open(d[..12], d[12..])
                                     case Some(p) => Ok(p)
                                     case None => Err
    {
      hide DecodeSymbols;
      if s == [] {
        assert Unbroken(s) == [];
        DecodesNothing();
      } else if |s| % 4 != 0 && PAD !in s && IsBase64(s) {
        UnevenDoesNotDecode(s);
      }
    }

    static lemma DecodesNothing()
      ensures DecodeSymbols([]) == Some([])
    {
    }

    static lemma UnevenDoesNotDecode(s: Bytes)
      requires |s| % 4 != 0 && PAD !in s && forall k :: 0 <= k < |s| ==> IsBase64Char(s[k])
      ensures Decode(s).None?
    {
      SymbolsInvert(0, PAD);
      forall k | 0 <= k < |s| ensures s[k] != LF && s[k] != CR {
        assert IsBase64Char(s[k]) && s[k] != PAD;
      }
      UnbrokenSame(s);
      DecodesExactly(s);
    }

    /** The texts a decryption turns into something else: those that decode to a box sealed under
        the key, or to nothing at all. */
    predicate IsBox(s: Bytes) {
      match Decode(s)
      case None => false
      case Some(d) => |d| == 0 || (|d| >= NONCE_SIZE && aead.open(d[..NONCE_SIZE], d[NONCE_SIZE..]).Some?)
    }

    /** Decryption either gives the text back, or refuses it, or shortens it; the last exactly for boxes. */
    lemma DecryptShortensBoxes(s: Bytes)
      requires aead.Lawful() && IsEncrypted(s)
      ensures IsBox(s) <==> Decrypt(s).Ok? && Decrypt(s).value != s
      ensures IsBox(s) ==> |Decrypt(s).value| < |s|
    {
      DecodeShrinks(s);
      if |s| % 4 != 0 && PAD !in s {
        assert forall k :: 0 <= k < |s| ==> IsBase64Char(s[k]) && s[k] != PAD;
        SymbolsInvert(0, PAD);
        UnbrokenSame(s);
        SymbolsShrink(s);
      }
    }
  }
}
