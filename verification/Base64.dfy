/** The base64 `STANDARD` engine used for the transport text: the alphabet
    of RFC 4648 section 4 (`A-Z a-z 0-9 + /`), `=` padding on encode, and a
    canonical decoder that demands the padding and rejects non-zero
    trailing bits.

    The codec is written in two layers, as a table-driven implementation
    is: characters are first read as symbols (a 6-bit value, the pad, or
    an invalid character), and the bit packing works on symbols only. */
module Base64 {
  import opened Wrappers
  import opened BoundedInts

  /** Why a text is not canonical base64. */
  datatype DecodeError =
    | InvalidLength      // the length is not a multiple of four
    | InvalidByte        // a character outside the alphabet, or misplaced padding
    | InvalidLastSymbol  // the last data character carries non-zero unused bits

  type sextet = x: bv8 | x < 64

  /** What one character of the text stands for. */
  datatype Symbol = Value(v: sextet) | Pad | Invalid

  const PAD_CHAR: char := '='

  // ----- Layer 1: characters and symbols -----

  predicate IsAlphabetChar(c: char) {
    || 'A' <= c <= 'Z'
    || 'a' <= c <= 'z'
    || '0' <= c <= '9'
    || c == '+'
    || c == '/'
  }

  /** The character that stands for a 6-bit value. */
  function CharOf(v: sextet): (c: char)
    ensures IsAlphabetChar(c)
  {
    var n := v as int;
    if n < 26 then ('A' as int + n) as char
    else if n < 52 then ('a' as int + (n - 26)) as char
    else if n < 62 then ('0' as int + (n - 52)) as char
    else if n == 62 then '+'
    else '/'
  }

  /** The 6-bit value an alphabet character stands for. */
  function ValueOf(c: char): sextet
    requires IsAlphabetChar(c)
  {
    var n :=
      if 'A' <= c <= 'Z' then c as int - 'A' as int
      else if 'a' <= c <= 'z' then c as int - 'a' as int + 26
      else if '0' <= c <= '9' then c as int - '0' as int + 52
      else if c == '+' then 62
      else 63;
    n as bv8
  }

  function SymbolOf(c: char): Symbol {
    if IsAlphabetChar(c) then Value(ValueOf(c))
    else if c == PAD_CHAR then Pad
    else Invalid
  }

  function CharOfSymbol(s: Symbol): char
    requires !s.Invalid?
  {
    if s.Pad? then PAD_CHAR else CharOf(s.v)
  }

  /** Reading back the character written for a symbol gives the symbol. */
  lemma SymbolOfCharOfSymbol(s: Symbol)
    requires !s.Invalid?
    ensures SymbolOf(CharOfSymbol(s)) == s
  {
  }

  /** Writing the symbol read from a valid character gives the character. */
  lemma CharOfSymbolOf(c: char)
    requires !SymbolOf(c).Invalid?
    ensures CharOfSymbol(SymbolOf(c)) == c
  {
    if IsAlphabetChar(c) {
      var n := c as int;
      if 'A' <= c <= 'Z' {
        SmallByte(n - 'A' as int);
      } else if 'a' <= c <= 'z' {
        SmallByte(n - 'a' as int + 26);
      } else if '0' <= c <= '9' {
        SmallByte(n - '0' as int + 52);
      }
    }
  }

  /** A value below 64 survives the round trip through a byte. */
  lemma SmallByte(n: int)
    requires 0 <= n < 64
    ensures (n as bv8) as int == n
    ensures n as bv8 < 64
  {
    assert n % 256 == n;
  }

  predicate Writable(syms: seq<Symbol>) {
    forall i :: 0 <= i < |syms| ==> !syms[i].Invalid?
  }

  function ToSymbols(s: string): (syms: seq<Symbol>)
    ensures |syms| == |s|
    ensures forall i :: 0 <= i < |s| ==> syms[i] == SymbolOf(s[i])
  {
    seq(|s|, i requires 0 <= i < |s| => SymbolOf(s[i]))
  }

  function ToChars(syms: seq<Symbol>): (s: string)
    requires Writable(syms)
    ensures |s| == |syms|
    ensures forall i :: 0 <= i < |s| ==> s[i] == CharOfSymbol(syms[i])
  {
    seq(|syms|, i requires 0 <= i < |syms| => CharOfSymbol(syms[i]))
  }

  lemma ToSymbolsToChars(syms: seq<Symbol>)
    requires Writable(syms)
    ensures ToSymbols(ToChars(syms)) == syms
  {
    forall i | 0 <= i < |syms|
      ensures ToSymbols(ToChars(syms))[i] == syms[i]
    {
      SymbolOfCharOfSymbol(syms[i]);
    }
  }

  lemma ToCharsToSymbols(s: string)
    requires Writable(ToSymbols(s))
    ensures ToChars(ToSymbols(s)) == s
  {
    forall i | 0 <= i < |s|
      ensures ToChars(ToSymbols(s))[i] == s[i]
    {
      CharOfSymbolOf(s[i]);
    }
  }

  // ----- Layer 2: bytes and symbols -----

  /* A group of three bytes a, b, c holds four 6-bit values: the top six
     bits of a; the low two of a and the top four of b; the low four of b and
     the top two of c; the low six of c. */

  function Hi6(a: byte): sextet { a >> 2 }
  function Lo2Hi4(a: byte, b: byte): sextet { ((a & 3) << 4) | (b >> 4) }
  function Lo4Hi2(b: byte, c: byte): sextet { ((b & 15) << 2) | (c >> 6) }
  function Lo6(c: byte): sextet { c & 63 }

  /* And back: each byte is rebuilt from the two 6-bit values it spans. */

  function Byte0(v0: sextet, v1: sextet): byte { (v0 << 2) | (v1 >> 4) }
  function Byte1(v1: sextet, v2: sextet): byte { ((v1 & 15) << 4) | (v2 >> 2) }
  function Byte2(v2: sextet, v3: sextet): byte { ((v2 & 3) << 6) | v3 }

  /** Splitting three bytes into sextets and joining them again is lossless. */
  lemma JoinSplit(a: byte, b: byte, c: byte)
    ensures Byte0(Hi6(a), Lo2Hi4(a, b)) == a
    ensures Byte1(Lo2Hi4(a, b), Lo4Hi2(b, c)) == b
    ensures Byte2(Lo4Hi2(b, c), Lo6(c)) == c
  {
  }

  /** Joining four sextets into bytes and splitting them again is lossless. */
  lemma SplitJoin(v0: sextet, v1: sextet, v2: sextet, v3: sextet)
    ensures Hi6(Byte0(v0, v1)) == v0
    ensures Lo2Hi4(Byte0(v0, v1), Byte1(v1, v2)) == v1
    ensures Lo4Hi2(Byte1(v1, v2), Byte2(v2, v3)) == v2
    ensures Lo6(Byte2(v2, v3)) == v3
  {
  }

  /** The symbols of the bytes: four per group of three, the last group
      padded to four. */
  function EncodeSymbols(data: seq<byte>): (syms: seq<Symbol>)
    ensures |syms| == 4 * ((|data| + 2) / 3)
    ensures Writable(syms)
    decreases |data|
  {
    if |data| == 0 then []
    else if |data| == 1 then
      [Value(Hi6(data[0])), Value(Lo2Hi4(data[0], 0)), Pad, Pad]
    else if |data| == 2 then
      [Value(Hi6(data[0])), Value(Lo2Hi4(data[0], data[1])), Value(Lo4Hi2(data[1], 0)), Pad]
    else
      [Value(Hi6(data[0])), Value(Lo2Hi4(data[0], data[1])), Value(Lo4Hi2(data[1], data[2])), Value(Lo6(data[2]))]
        + EncodeSymbols(data[3..])
  }

  /** A group of four values that is not the last group. */
  function DecodeQuad(q: seq<Symbol>): Result<seq<byte>, DecodeError>
    requires |q| == 4
  {
    if q[0].Value? && q[1].Value? && q[2].Value? && q[3].Value? then
      Success([Byte0(q[0].v, q[1].v), Byte1(q[1].v, q[2].v), Byte2(q[2].v, q[3].v)])
    else Failure(InvalidByte)
  }

  /** The last group, which may end in one or two pads; the bits a pad
      leaves unused must be zero. */
  function DecodeLastQuad(q: seq<Symbol>): Result<seq<byte>, DecodeError>
    requires |q| == 4
  {
    if !(q[0].Value? && q[1].Value?) then Failure(InvalidByte)
    else if q[2].Pad? then
      if !q[3].Pad? then Failure(InvalidByte)
      else if q[1].v & 15 != 0 then Failure(InvalidLastSymbol)
      else Success([Byte0(q[0].v, q[1].v)])
    else if !q[2].Value? then Failure(InvalidByte)
    else if q[3].Pad? then
      if q[2].v & 3 != 0 then Failure(InvalidLastSymbol)
      else Success([Byte0(q[0].v, q[1].v), Byte1(q[1].v, q[2].v)])
    else DecodeQuad(q)
  }

  function DecodeSymbols(syms: seq<Symbol>): Result<seq<byte>, DecodeError>
    requires |syms| % 4 == 0
    decreases |syms|
  {
    if |syms| == 0 then Success([])
    else if |syms| == 4 then DecodeLastQuad(syms)
    else
      var head :- DecodeQuad(syms[..4]);
      var tail :- DecodeSymbols(syms[4..]);
      Success(head + tail)
  }

  // ----- The codec -----

  /** Padded base64 text of `data`: four characters for every started group
      of three bytes, each from the alphabet or a pad. */
  function Encode(data: seq<byte>): (s: string)
    ensures |s| == 4 * ((|data| + 2) / 3)
    ensures forall i :: 0 <= i < |s| ==> IsAlphabetChar(s[i]) || s[i] == PAD_CHAR
  {
    ToChars(EncodeSymbols(data))
  }

  /** Canonical decoding of padded base64 text. */
  function Decode(s: string): (r: Result<seq<byte>, DecodeError>)
    ensures |s| % 4 != 0 ==> r == Failure(InvalidLength)
  {
    if |s| % 4 != 0 then Failure(InvalidLength) else DecodeSymbols(ToSymbols(s))
  }

  // ----- Proofs -----

  /** Decoding a sequence that does not end after its first group decodes
      that group as a full one and then the remainder. */
  lemma DecodeSymbolsCons(q: seq<Symbol>, rest: seq<Symbol>)
    requires |q| == 4 && |rest| % 4 == 0 && |rest| > 0
    ensures DecodeSymbols(q + rest) ==
      match DecodeQuad(q)
      case Failure(e) => Failure(e)
      case Success(head) =>
        match DecodeSymbols(rest)
        case Failure(e) => Failure(e)
        case Success(tail) => Success(head + tail)
  {
    assert (q + rest)[..4] == q;
    assert (q + rest)[4..] == rest;
  }

  lemma {:induction false} DecodeEncodeSymbols(data: seq<byte>)
    ensures DecodeSymbols(EncodeSymbols(data)) == Success(data)
    decreases |data|
  {
    if |data| == 0 {
    } else if |data| == 1 {
      JoinSplit(data[0], 0, 0);
      assert data == [data[0]];
    } else if |data| == 2 {
      JoinSplit(data[0], data[1], 0);
      assert data == [data[0], data[1]];
    } else {
      var a, b, c := data[0], data[1], data[2];
      var head := [Value(Hi6(a)), Value(Lo2Hi4(a, b)), Value(Lo4Hi2(b, c)), Value(Lo6(c))];
      var rest := EncodeSymbols(data[3..]);
      assert EncodeSymbols(data) == head + rest;
      JoinSplit(a, b, c);
      assert DecodeQuad(head) == Success([a, b, c]);
      DecodeEncodeSymbols(data[3..]);
      if |data| == 3 {
        assert rest == [];
        assert head + rest == head;
        assert data == [a, b, c];
      } else {
        DecodeSymbolsCons(head, rest);
        assert data == [a, b, c] + data[3..];
      }
    }
  }

  lemma LastQuadCanonical(q: seq<Symbol>)
    requires |q| == 4 && DecodeLastQuad(q).Success?
    ensures 1 <= |DecodeLastQuad(q).value| <= 3
    ensures EncodeSymbols(DecodeLastQuad(q).value) == q
  {
    var d := DecodeLastQuad(q).value;
    if q[2].Pad? {
      SplitJoin(q[0].v, q[1].v, 0, 0);
    } else if q[3].Pad? {
      SplitJoin(q[0].v, q[1].v, q[2].v, 0);
    } else {
      SplitJoin(q[0].v, q[1].v, q[2].v, q[3].v);
      assert d[3..] == [];
    }
  }

  lemma {:induction false} SymbolsCanonical(syms: seq<Symbol>)
    requires |syms| % 4 == 0 && DecodeSymbols(syms).Success?
    ensures |syms| > 0 ==> |DecodeSymbols(syms).value| > 0
    ensures EncodeSymbols(DecodeSymbols(syms).value) == syms
    decreases |syms|
  {
    if |syms| == 0 {
    } else if |syms| == 4 {
      LastQuadCanonical(syms);
    } else {
      var q, rest := syms[..4], syms[4..];
      assert syms == q + rest;
      DecodeSymbolsCons(q, rest);
      var head, tail := DecodeQuad(q).value, DecodeSymbols(rest).value;
      SymbolsCanonical(rest);
      SplitJoin(q[0].v, q[1].v, q[2].v, q[3].v);
      var d := head + tail;
      assert d[..3] == head && d[3..] == tail;
    }
  }

  /** Decoding undoes encoding: the property region cropping relies on when
      it decodes the text that a capture produced. */
  lemma DecodeEncode(data: seq<byte>)
    ensures Decode(Encode(data)) == Success(data)
  {
    var syms := EncodeSymbols(data);
    var s := ToChars(syms);
    assert Encode(data) == s;
    ToSymbolsToChars(syms);
    assert ToSymbols(s) == syms;
    assert |s| == 4 * ((|data| + 2) / 3);
    assert |s| % 4 == 0;
    DecodeEncodeSymbols(data);
    assert Decode(s) == DecodeSymbols(syms);
  }

  /** The decoder is canonical: any text it accepts is exactly the encoding
      of what it returns, so no two accepted texts decode to the same bytes. */
  lemma EncodeDecode(s: string)
    requires Decode(s).Success?
    ensures Encode(Decode(s).value) == s
  {
    var syms := ToSymbols(s);
    SymbolsCanonical(syms);
    ToCharsToSymbols(s);
  }

  /** Every character of an accepted text is in the alphabet or is the pad. */
  lemma DecodeAcceptsOnlyAlphabet(s: string)
    ensures Decode(s).Success? ==> forall i :: 0 <= i < |s| ==> IsAlphabetChar(s[i]) || s[i] == PAD_CHAR
  {
    if Decode(s).Success? {
      var syms := ToSymbols(s);
      SymbolsCanonical(syms);
      assert Writable(syms);
    }
  }
}
