/** Padded base64 for binary payloads: the 64-symbol alphabet and padding of section 4 of RFC 4648. */
module Base64 {
  import opened Basics

  /** The pad, an equals sign, and the ASCII codes the alphabet starts from. */
  const PAD: Byte := 61
  const UPPER_A: Byte := 65
  const LOWER_A: Byte := 97
  const DIGIT_0: Byte := 48
  const PLUS: Byte := 43
  const SLASH: Byte := 47

  datatype DecodeError = Length | Symbol | Padding
  datatype Decoded = Bytes(bytes: seq<Byte>) | Failed(error: DecodeError)

  // ------------------------------------------------------- symbols

  type Sextet = v: int | 0 <= v < 64

  function SymbolOf(v: Sextet): (symbol: Byte)
  {
    if v < 26 then UPPER_A + v
    else if v < 52 then LOWER_A + (v - 26)
    else if v < 62 then DIGIT_0 + (v - 52)
    else if v == 62 then PLUS
    else SLASH
  }

  function ValueOf(byte: Byte): (value: Option<Sextet>)
  {
    if UPPER_A <= byte < UPPER_A + 26 then Some(byte - UPPER_A)
    else if LOWER_A <= byte < LOWER_A + 26 then Some(byte - LOWER_A + 26)
    else if DIGIT_0 <= byte < DIGIT_0 + 10 then Some(byte - DIGIT_0 + 52)
    else if byte == PLUS then Some(62)
    else if byte == SLASH then Some(63)
    else None
  }

  /** The alphabet is a bijection between sextets and the symbols, none of which is the pad. */
  lemma SymbolsAndValuesInvert(v: Sextet, byte: Byte)
    ensures SymbolOf(v) != PAD && ValueOf(SymbolOf(v)) == Some(v)
    ensures ValueOf(byte).Some? ==> SymbolOf(ValueOf(byte).value) == byte
    ensures ValueOf(PAD) == None
  {
  }

  // ------------------------------------------------------- one block

  /** Three, two or one bytes as four characters. */
  function EncodeChunk(chunk: seq<Byte>): (quad: seq<Byte>)
    requires 1 <= |chunk| <= 3
    ensures |quad| == 4
  {
    var second: Byte := if |chunk| > 1 then chunk[1] else 0;
    var third: Byte := if |chunk| > 2 then chunk[2] else 0;
    var block := Block(chunk[0], second, third);
    [ SymbolOf(block / 0x4_0000 % 64),
      SymbolOf(block / 0x1000 % 64),
      if |chunk| > 1 then SymbolOf(block / 64 % 64) else PAD,
      if |chunk| > 2 then SymbolOf(block % 64) else PAD ]
  }

  function Block(first: Byte, second: Byte, third: Byte): (block: nat)
    ensures block < 0x100_0000
  {
    first as int * 0x1_0000 + second as int * 0x100 + third as int
  }

  function Sum(a: Sextet, b: Sextet, c: Sextet, d: Sextet): (block: nat)
    ensures block < 0x100_0000
  {
    ((a as int * 64 + b as int) * 64 + c as int) * 64 + d as int
  }

  function CharValue(byte: Byte): (value: Option<Sextet>)
  {
    if byte == PAD then Some(0) else ValueOf(byte)
  }

  function Pads(quad: seq<Byte>): (n: nat)
    ensures n <= |quad|
  {
    if quad == [] then 0 else Pads(quad[..|quad| - 1]) + (if quad[|quad| - 1] == PAD then 1 else 0)
  }

  predicate MisplacedPads(quad: seq<Byte>, last: bool)
    requires |quad| == 4
  {
    Pads(quad) > 0 && (!last || Pads(quad) > 2 || quad[1] == PAD)
  }

  function BytesOf(block: nat, pads: nat): (bytes: seq<Byte>)
    requires block < 0x100_0000
    ensures |bytes| == (if pads == 0 then 3 else if pads == 1 then 2 else 1)
  {
    [block / 0x1_0000]
    + (if pads < 2 then [block / 0x100 % 0x100] else [])
    + (if pads < 1 then [block % 0x100] else [])
  }

  function DecodeQuad(quad: seq<Byte>, last: bool): (r: Decoded)
    requires |quad| == 4
  {
    if MisplacedPads(quad, last) then Failed(Padding)
    else
      var a, b, c, d := CharValue(quad[0]), CharValue(quad[1]), CharValue(quad[2]), CharValue(quad[3]);
      if a.None? || b.None? || c.None? || d.None? then Failed(Symbol)
      else Bytes(BytesOf(Sum(a.value, b.value, c.value, d.value), Pads(quad)))
  }

  // ------------------------------------------------------- whole texts

  function Encode(bytes: seq<Byte>): (text: seq<Byte>)
  {
    if bytes == [] then []
    else if |bytes| <= 3 then EncodeChunk(bytes)
    else EncodeChunk(bytes[..3]) + Encode(bytes[3..])
  }

  function Decode(text: seq<Byte>): (r: Decoded)
  {
    if |text| % 4 != 0 then Failed(Length)
    else DecodeFrom(text)
  }

  function DecodeFrom(text: seq<Byte>): (r: Decoded)
  {
    if |text| < 4 then Bytes([])
    else Prepended(DecodeQuad(text[..4], |text| < 8), DecodeFrom(text[4..]))
  }

  /** The first failure wins. */
  function Prepended(first: Decoded, rest: Decoded): (r: Decoded)
  {
    if first.Failed? then first else if rest.Failed? then rest else Bytes(first.bytes + rest.bytes)
  }

  /** The encoder's loop. */
  method EncodeBytes(bytes: seq<Byte>) returns (encoded: seq<Byte>)
    ensures encoded == Encode(bytes)
  {
    hide EncodeChunk, Encode;
    encoded := [];
    var at := 0;
    assert bytes[0..] == bytes;
    NothingEncodes();
    while at < |bytes|
      invariant at <= |bytes| && encoded + Encode(bytes[at..]) == Encode(bytes)
    {
      var end := if at + 3 < |bytes| then at + 3 else |bytes|;
      var chunk := bytes[at..end];
      var quad := EncodeChunk(chunk);
      EncodeNext(bytes, at, end);
      assert encoded + (quad + Encode(bytes[end..])) == encoded + quad + Encode(bytes[end..]);
      encoded := encoded + quad;
      at := end;
    }
    assert bytes[|bytes|..] == [];
  }

  lemma NothingEncodes()
    ensures Encode([]) == []
  {
  }

  lemma EncodeNext(bytes: seq<Byte>, at: nat, end: nat)
    requires at < |bytes| && end == (if at + 3 < |bytes| then at + 3 else |bytes|)
    ensures Encode(bytes[at..]) == EncodeChunk(bytes[at..end]) + Encode(bytes[end..])
  {
    hide EncodeChunk;
    if at + 3 < |bytes| {
      assert bytes[at..][..3] == bytes[at..end] && bytes[at..][3..] == bytes[end..];
    } else {
      assert bytes[at..] == bytes[at..end] && bytes[end..] == [];
    }
  }

  /** The decoder's loop. */
  method DecodeText(text: seq<Byte>) returns (r: Decoded)
    ensures r == Decode(text)
  {
    hide DecodeQuad, DecodeFrom;
    if |text| % 4 != 0 {
      return Failed(Length);
    }
    var decoded: seq<Byte> := [];
    var at := 0;
    DecodeEnds();
    assert text[0..] == text;
    while at < |text|
      invariant at <= |text| && (|text| - at) % 4 == 0
      invariant DecodeFrom(text) == Prepended(Bytes(decoded), DecodeFrom(text[at..]))
    {
      DecodeNext(text, at);
      var bytes := DecodeChunk(text[at..at + 4], at + 4 == |text|);
      if bytes.Failed? {
        return bytes;
      }
      PrependedTwice(Bytes(decoded), bytes, DecodeFrom(text[at + 4..]));
      decoded := decoded + bytes.bytes;
      at := at + 4;
    }
    assert text[|text|..] == [];
    r := Bytes(decoded);
  }

  lemma PrependedTwice(left: Decoded, right: Decoded, rest: Decoded)
    ensures Prepended(left, Prepended(right, rest)) == Prepended(Prepended(left, right), rest)
  {
  }

  lemma DecodeEnds()
    ensures DecodeFrom([]) == Bytes([])
    ensures forall r: Decoded :: Prepended(Bytes([]), r) == r && Prepended(r, Bytes([])) == r
  {
  }

  lemma DecodeNext(text: seq<Byte>, at: nat)
    requires at < |text| && (|text| - at) % 4 == 0
    ensures at + 4 <= |text|
    ensures DecodeFrom(text[at..]) == Prepended(DecodeQuad(text[at..at + 4], at + 4 == |text|), DecodeFrom(text[at + 4..]))
  {
    hide DecodeQuad, Prepended;
    assert text[at..][..4] == text[at..at + 4] && text[at..][4..] == text[at + 4..];
  }

  /** One quad, counting its pads and shifting its values in. */
  method DecodeChunk(chunk: seq<Byte>, last: bool) returns (r: Decoded)
    requires |chunk| == 4
    ensures r == DecodeQuad(chunk, last)
  {
    hide Pads, CharValue, Sum, BytesOf;
    var padding := CountPads(chunk);
    if padding > 0 && (!last || padding > 2 || chunk[1] == PAD) {
      return Failed(Padding);
    }
    var block := BlockOf(chunk);
    if block.None? {
      return Failed(Symbol);
    }
    r := Bytes(BytesOf(block.value, padding));
  }

  method CountPads(chunk: seq<Byte>) returns (n: nat)
    ensures n == Pads(chunk)
  {
    n := 0;
    for i := 0 to |chunk|
      invariant n == Pads(chunk[..i])
    {
      assert chunk[..i + 1][..i] == chunk[..i];
      if chunk[i] == PAD {
        n := n + 1;
      }
    }
    assert chunk[..|chunk|] == chunk;
  }

  method BlockOf(chunk: seq<Byte>) returns (block: Option<nat>)
    requires |chunk| == 4
    ensures block.None? <==> exists i :: 0 <= i < 4 && CharValue(chunk[i]).None?
    ensures block.Some? ==>
              block.value == Sum(CharValue(chunk[0]).value, CharValue(chunk[1]).value,
                                 CharValue(chunk[2]).value, CharValue(chunk[3]).value)
  {
    var sum: nat := 0;
    for i := 0 to 4
      invariant forall k :: 0 <= k < i ==> CharValue(chunk[k]).Some?
      invariant sum == Shifted(chunk, i)
    {
      var value := CharValue(chunk[i]);
      if value.None? {
        return None;
      }
      sum := sum * 64 + value.value as nat;
    }
    assert Shifted(chunk, 2) == Shifted(chunk, 1) * 64 + CharValue(chunk[1]).value as nat;
    assert Shifted(chunk, 3) == Shifted(chunk, 2) * 64 + CharValue(chunk[2]).value as nat;
    assert sum == Shifted(chunk, 3) * 64 + CharValue(chunk[3]).value as nat;
    block := Some(sum);
  }

  function Shifted(chunk: seq<Byte>, n: nat): (sum: nat)
    requires n <= |chunk| && forall k :: 0 <= k < n ==> CharValue(chunk[k]).Some?
  {
    if n == 0 then 0 else Shifted(chunk, n - 1) * 64 + CharValue(chunk[n - 1]).value as nat
  }

  // ------------------------------------------------------- the round trip

  lemma ChunkComesBack(chunk: seq<Byte>, last: bool)
    requires 1 <= |chunk| <= 3 && (|chunk| < 3 ==> last)
    ensures DecodeQuad(EncodeChunk(chunk), last) == Bytes(chunk)
  {
    var quad := EncodeChunk(chunk);
    var second: Byte := if |chunk| > 1 then chunk[1] else 0;
    var third: Byte := if |chunk| > 2 then chunk[2] else 0;
    PadsOfQuad(quad);
    SextetsOf(chunk[0], second, third);
    OctetsOf(chunk[0], second, third);
    ValuesOfQuad(chunk);
    hide Block, Sum, SymbolOf, ValueOf, CharValue, EncodeChunk, Pads;
    assert chunk == (if |chunk| == 1 then [chunk[0]] else if |chunk| == 2 then [chunk[0], second] else [chunk[0], second, third]);
  }

  /** Each character of a chunk carries its sextet, a pad carrying zero. */
  lemma ValuesOfQuad(chunk: seq<Byte>)
    requires 1 <= |chunk| <= 3
    ensures var quad := EncodeChunk(chunk);
            var second: Byte := if |chunk| > 1 then chunk[1] else 0;
            var third: Byte := if |chunk| > 2 then chunk[2] else 0;
            var block := Block(chunk[0], second, third);
            && CharValue(quad[0]) == Some(block / 0x4_0000 % 64)
            && CharValue(quad[1]) == Some(block / 0x1000 % 64)
            && CharValue(quad[2]) == Some(if |chunk| > 1 then block / 64 % 64 else 0)
            && CharValue(quad[3]) == Some(if |chunk| > 2 then block % 64 else 0)
            && quad[0] != PAD && quad[1] != PAD && (quad[2] == PAD <==> |chunk| == 1) && (quad[3] == PAD <==> |chunk| < 3)
  {
    var block := Block(chunk[0], if |chunk| > 1 then chunk[1] else 0, if |chunk| > 2 then chunk[2] else 0);
    SymbolsAndValuesInvert(block / 0x4_0000 % 64, 0);
    SymbolsAndValuesInvert(block / 0x1000 % 64, 0);
    SymbolsAndValuesInvert(block / 64 % 64, 0);
    SymbolsAndValuesInvert(block % 64, 0);
    hide Block, SymbolOf, ValueOf;
  }

  lemma PadsOfQuad(quad: seq<Byte>)
    requires |quad| == 4
    ensures Pads(quad) == (if quad[0] == PAD then 1 else 0) + (if quad[1] == PAD then 1 else 0)
                          + (if quad[2] == PAD then 1 else 0) + (if quad[3] == PAD then 1 else 0)
  {
    assert quad[..3][..2] == quad[..2] && quad[..2][..1] == quad[..1] && quad[..1][..0] == [];
    assert Pads(quad[..1]) == if quad[0] == PAD then 1 else 0;
    assert Pads(quad[..2]) == Pads(quad[..1]) + if quad[1] == PAD then 1 else 0;
    assert Pads(quad[..3]) == Pads(quad[..2]) + if quad[2] == PAD then 1 else 0;
  }

  /** The sextets of a sum are its summands. */
  lemma DigitsOfSum(a: Sextet, b: Sextet, c: Sextet, d: Sextet)
    ensures var x := Sum(a, b, c, d);
            && x / 0x4_0000 % 64 == a && x / 0x1000 % 64 == b && x / 64 % 64 == c && x % 64 == d
  {
    var x := Sum(a, b, c, d);
    assert x == 0x4_0000 * a + 0x1000 * b + 64 * c + d;
    assert x / 64 == 0x1000 * a + 64 * b + c;
    assert x / 0x1000 == 64 * a + b;
    assert x / 0x4_0000 == a;
  }

  /** Three bytes regrouped as four sextets. */
  lemma Regroup(first: Byte, second: Byte, third: Byte) returns (a: Sextet, b: Sextet, c: Sextet, d: Sextet)
    ensures Block(first, second, third) == Sum(a, b, c, d)
    ensures third == 0 ==> d == 0
    ensures third == 0 && second == 0 ==> c == 0
  {
    a, b := first / 4, first % 4 * 16 + second / 16;
    c, d := second % 16 * 4 + third / 64, third % 64;
    assert first == 4 * (first / 4) + first % 4;
    assert second == 16 * (second / 16) + second % 16;
    assert third == 64 * (third / 64) + third % 64;
  }

  /** Cutting a block into sextets and summing them again loses nothing. */
  lemma SextetsOf(first: Byte, second: Byte, third: Byte)
    ensures var block := Block(first, second, third);
            && Sum(block / 0x4_0000 % 64, block / 0x1000 % 64, block / 64 % 64, block % 64) == block
            && (third == 0 ==> block % 64 == 0)
            && (third == 0 && second == 0 ==> block / 64 % 64 == 0)
  {
    hide Block, Sum;
    var a, b, c, d := Regroup(first, second, third);
    DigitsOfSum(a, b, c, d);
  }

  lemma OctetsOf(first: Byte, second: Byte, third: Byte)
    ensures BytesOf(Block(first, second, third), 0) == [first, second, third]
    ensures BytesOf(Block(first, second, third), 1) == [first, second]
    ensures BytesOf(Block(first, second, third), 2) == [first]
  {
    var block := Block(first, second, third);
    assert block / 0x100 == 0x100 * first + second;
    assert block / 0x1_0000 == first;
  }

  /** Every byte string comes back. */
  lemma {:induction false} DecodeEncode(bytes: seq<Byte>)
    ensures Decode(Encode(bytes)) == Bytes(bytes)
    ensures |Encode(bytes)| == (|bytes| + 2) / 3 * 4
  {
    hide EncodeChunk, DecodeQuad, Prepended;
    DecodeEnds();
    if bytes == [] {
    } else if |bytes| <= 3 {
      ChunkComesBack(bytes, true);
      assert Encode(bytes)[..4] == Encode(bytes) && Encode(bytes)[4..] == [];
    } else {
      ChunkComesBack(bytes[..3], false);
      DecodeEncode(bytes[3..]);
      Joined(bytes[..3], bytes[3..]);
      assert Encode(bytes)[..4] == EncodeChunk(bytes[..3]) && Encode(bytes)[4..] == Encode(bytes[3..]);
      assert bytes[..3] + bytes[3..] == bytes;
    }
  }

  lemma Joined(left: seq<Byte>, right: seq<Byte>)
    ensures Prepended(Bytes(left), Bytes(right)) == Bytes(left + right)
  {
  }

  // ------------------------------------------- what decodes, and to what

  /** A text the decoder accepts: whole quads of symbols, with one or two pads only in the last, not at its second place. */
  predicate Decodable(text: seq<Byte>)
  {
    && |text| % 4 == 0
    && (forall i :: 0 <= i < |text| - 4 ==> ValueOf(text[i]).Some?)
    && (text != [] ==> DecodableLast(text[|text| - 4..]))
  }

  predicate DecodableLast(quad: seq<Byte>)
    requires |quad| == 4
  {
    && (forall i :: 0 <= i < 4 ==> CharValue(quad[i]).Some?)
    && quad[1] != PAD
    && Pads(quad) <= 2
  }

  /** Nothing else decodes, and the length is three per quad less the pads. */
  lemma {:induction false} DecodesExactly(text: seq<Byte>)
    ensures Decode(text).Bytes? <==> Decodable(text)
    ensures Decode(text).Bytes? ==>
              |Decode(text).bytes| == |text| / 4 * 3 - (if text == [] then 0 else Pads(text[|text| - 4..]))
  {
    if |text| % 4 == 0 && text != [] {
      var quad, rest := text[..4], text[4..];
      PadsOfQuad(quad);
      QuadDecodes(quad, |text| == 4);
      DecodesExactly(rest);
      hide DecodeQuad, DecodableLast, Pads, ValueOf;
      if rest == [] {
        assert text[|text| - 4..] == quad;
      } else {
        assert text[|text| - 4..] == rest[|rest| - 4..];
        assert forall i :: 0 <= i < |rest| - 4 ==> rest[i] == text[i + 4];
        assert forall i :: 4 <= i < |text| - 4 ==> text[i] == rest[i - 4];
      }
    }
  }

  lemma QuadDecodes(quad: seq<Byte>, last: bool)
    requires |quad| == 4
    ensures DecodeQuad(quad, last).Bytes? <==>
              if last then DecodableLast(quad) else forall i :: 0 <= i < 4 ==> ValueOf(quad[i]).Some?
    ensures DecodeQuad(quad, last).Bytes? ==>
              |DecodeQuad(quad, last).bytes| == 3 - (if last then Pads(quad) else 0)
  {
    PadsOfQuad(quad);
    hide Pads;
    SymbolsAndValuesInvert(0, PAD);
    hide ValueOf, SymbolOf, Sum;
  }

  // ------------------------------------------------- what re-encodes

  /** The one spelling the encoder uses: pads trailing, and nothing in the bits a pad leaves unused. */
  predicate CanonicalLast(quad: seq<Byte>)
    requires |quad| == 4 && DecodableLast(quad)
  {
    && quad[0] != PAD
    && (quad[2] == PAD ==> quad[3] == PAD && CharValue(quad[1]).value % 16 == 0)
    && (quad[2] != PAD && quad[3] == PAD ==> CharValue(quad[2]).value % 4 == 0)
  }

  lemma OctetsOfSum(a: Sextet, b: Sextet, c: Sextet, d: Sextet)
    ensures var sum := Sum(a, b, c, d);
            && sum / 0x1_0000 == 4 * a + b / 16
            && sum / 0x100 % 0x100 == b % 16 * 16 + c / 4
            && sum % 0x100 == c % 4 * 64 + d
  {
    assert b == 16 * (b / 16) + b % 16;
    assert c == 4 * (c / 4) + c % 4;
    var high, middle, low := 4 * a + b / 16, b % 16 * 16 + c / 4, c % 4 * 64 + d;
    var sum := Sum(a, b, c, d);
    assert sum == 0x1_0000 * high + 0x100 * middle + low;
    DivideTwice(sum, high, middle, low);
  }

  lemma DivideTwice(sum: nat, high: nat, middle: nat, low: nat)
    requires sum == 0x1_0000 * high + 0x100 * middle + low && middle < 0x100 && low < 0x100
    ensures sum / 0x1_0000 == high && sum / 0x100 % 0x100 == middle && sum % 0x100 == low
  {
    assert sum / 0x100 == 0x100 * high + middle;
  }

  /** A sextet without its low two or low four bits. */
  function Upper(v: Sextet): (u: Sextet)
    ensures v % 4 == 0 <==> u == v
  {
    v - v % 4
  }

  function Top(v: Sextet): (u: Sextet)
    ensures v % 16 == 0 <==> u == v
  {
    v - v % 16
  }

  /** The bytes of a sum are its high bits; what pads cut off is at most the low bits of one sextet. */
  lemma HighBits(a: Sextet, b: Sextet, c: Sextet, d: Sextet)
    ensures var sum := Sum(a, b, c, d);
            && Block(sum / 0x1_0000, sum / 0x100 % 0x100, sum % 0x100) == sum
            && Block(sum / 0x1_0000, sum / 0x100 % 0x100, 0) == Sum(a, b, Upper(c), 0)
            && Block(sum / 0x1_0000, 0, 0) == Sum(a, Top(b), 0, 0)
  {
    OctetsOfSum(a, b, c, d);
    assert b == 16 * (b / 16) + b % 16;
    assert c == 4 * (c / 4) + c % 4;
  }

  lemma QuadOf(first: Byte, second: Byte, third: Byte, a: Sextet, b: Sextet, c: Sextet, d: Sextet)
    requires Block(first, second, third) == Sum(a, b, c, d)
    ensures EncodeChunk([first, second, third]) == [SymbolOf(a), SymbolOf(b), SymbolOf(c), SymbolOf(d)]
    ensures third == 0 ==> EncodeChunk([first, second]) == [SymbolOf(a), SymbolOf(b), SymbolOf(c), PAD]
    ensures third == 0 && second == 0 ==> EncodeChunk([first]) == [SymbolOf(a), SymbolOf(b), PAD, PAD]
  {
    DigitsOfSum(a, b, c, d);
    hide Block, Sum, SymbolOf;
  }

  lemma SymbolOfChar(byte: Byte, v: Sextet)
    requires CharValue(byte).Some?
    ensures SymbolOf(v) != PAD
    ensures byte != PAD ==> (SymbolOf(v) == byte <==> v == CharValue(byte).value)
  {
    SymbolsAndValuesInvert(v, byte);
  }

  function QuadSum(quad: seq<Byte>): (sum: nat)
    requires |quad| == 4 && forall i :: 0 <= i < 4 ==> CharValue(quad[i]).Some?
    ensures sum < 0x100_0000
  {
    Sum(CharValue(quad[0]).value, CharValue(quad[1]).value, CharValue(quad[2]).value, CharValue(quad[3]).value)
  }

  lemma QuadReencodes(quad: seq<Byte>, last: bool)
    requires |quad| == 4 && DecodeQuad(quad, last).Bytes?
    ensures 1 <= |DecodeQuad(quad, last).bytes| <= 3
    ensures DecodableLast(quad)
    ensures EncodeChunk(DecodeQuad(quad, last).bytes) == quad <==> CanonicalLast(quad)
    ensures !last ==> CanonicalLast(quad)
  {
    assert DecodeQuad(quad, last) == Bytes(BytesOf(QuadSum(quad), Pads(quad)));
    PadsOfQuad(quad);
    if Pads(quad) == 0 {
      FullQuadReencodes(quad);
    } else {
      PaddedQuadReencodes(quad);
    }
    hide EncodeChunk, BytesOf, QuadSum, Pads, CharValue;
  }

  lemma FullQuadReencodes(quad: seq<Byte>)
    requires |quad| == 4 && forall i :: 0 <= i < 4 ==> CharValue(quad[i]).Some? && quad[i] != PAD
    ensures EncodeChunk(BytesOf(QuadSum(quad), 0)) == quad
  {
    var a, b, c, d := CharValue(quad[0]).value, CharValue(quad[1]).value, CharValue(quad[2]).value, CharValue(quad[3]).value;
    SymbolOfChar(quad[0], a);
    SymbolOfChar(quad[1], b);
    SymbolOfChar(quad[2], c);
    SymbolOfChar(quad[3], d);
    HighBits(a, b, c, d);
    var sum := Sum(a, b, c, d);
    QuadOf(sum / 0x1_0000, sum / 0x100 % 0x100, sum % 0x100, a, b, c, d);
    hide Sum, Block, SymbolOf, CharValue, EncodeChunk;
    assert quad == [quad[0], quad[1], quad[2], quad[3]];
  }

  lemma PaddedQuadReencodes(quad: seq<Byte>)
    requires |quad| == 4 && DecodableLast(quad) && Pads(quad) > 0
    ensures EncodeChunk(BytesOf(QuadSum(quad), Pads(quad))) == quad <==> CanonicalLast(quad)
  {
    var a, b, c := CharValue(quad[0]).value, CharValue(quad[1]).value, CharValue(quad[2]).value;
    PaddedQuad(quad);
    PadsOfQuad(quad);
    SymbolOfChar(quad[0], a);
    SymbolOfChar(quad[1], b);
    SymbolOfChar(quad[1], Top(b));
    SymbolOfChar(quad[2], Upper(c));
    hide SymbolOf, CharValue, EncodeChunk, Pads, QuadSum, BytesOf;
    assert quad == [quad[0], quad[1], quad[2], quad[3]];
  }

  lemma PaddedQuad(quad: seq<Byte>)
    requires |quad| == 4 && forall i :: 0 <= i < 4 ==> CharValue(quad[i]).Some?
    ensures var a, b, c := CharValue(quad[0]).value, CharValue(quad[1]).value, CharValue(quad[2]).value;
            && EncodeChunk(BytesOf(QuadSum(quad), 1)) == [SymbolOf(a), SymbolOf(b), SymbolOf(Upper(c)), PAD]
            && EncodeChunk(BytesOf(QuadSum(quad), 2)) == [SymbolOf(a), SymbolOf(Top(b)), PAD, PAD]
  {
    hide CharValue, EncodeChunk, BytesOf, Sum, SymbolOf;
    PaddedSum(CharValue(quad[0]).value, CharValue(quad[1]).value, CharValue(quad[2]).value, CharValue(quad[3]).value);
  }

  /** What a shortened sum encodes to: its sextets, without the bits the pads leave unused. */
  lemma PaddedSum(a: Sextet, b: Sextet, c: Sextet, d: Sextet)
    ensures EncodeChunk(BytesOf(Sum(a, b, c, d), 1)) == [SymbolOf(a), SymbolOf(b), SymbolOf(Upper(c)), PAD]
    ensures EncodeChunk(BytesOf(Sum(a, b, c, d), 2)) == [SymbolOf(a), SymbolOf(Top(b)), PAD, PAD]
  {
    var sum := Sum(a, b, c, d);
    HighBits(a, b, c, d);
    QuadOf(sum / 0x1_0000, sum / 0x100 % 0x100, 0, a, b, Upper(c), 0);
    QuadOf(sum / 0x1_0000, 0, 0, a, Top(b), 0, 0);
    hide Sum, Block, SymbolOf, EncodeChunk, Upper, Top;
    assert BytesOf(sum, 1) == [sum / 0x1_0000, sum / 0x100 % 0x100];
    assert BytesOf(sum, 2) == [sum / 0x1_0000];
  }

  /** A text that decodes is what its bytes encode to exactly when its last quad is spelled canonically. */
  lemma {:induction false} ReencodesExactlyWhenCanonical(text: seq<Byte>)
    requires Decode(text).Bytes?
    ensures text != [] ==> DecodableLast(text[|text| - 4..])
    ensures Encode(Decode(text).bytes) == text <==> text == [] || CanonicalLast(text[|text| - 4..])
  {
    hide EncodeChunk, DecodeQuad, CanonicalLast, DecodableLast;
    if text != [] {
      var quad, rest := text[..4], text[4..];
      var first := DecodeQuad(quad, |text| == 4).bytes;
      QuadReencodes(quad, |text| == 4);
      assert text == quad + rest;
      if rest == [] {
        assert text[|text| - 4..] == quad && first + [] == first;
        assert DecodeFrom(rest) == Bytes([]);
      } else {
        var more := DecodeFrom(rest).bytes;
        ReencodesExactlyWhenCanonical(rest);
        FullQuad(quad, rest);
        assert text[|text| - 4..] == rest[|rest| - 4..];
        assert (first + more)[..3] == first && (first + more)[3..] == more;
        assert Encode(first + more) == EncodeChunk(first) + Encode(more);
        assert (quad + Encode(more))[4..] == Encode(more);
      }
    }
  }

  lemma FullQuad(quad: seq<Byte>, rest: seq<Byte>)
    requires |quad| == 4 && DecodeQuad(quad, false).Bytes? && rest != [] && Decode(rest).Bytes?
    ensures |DecodeQuad(quad, false).bytes| == 3 && Decode(rest).bytes != []
  {
    QuadDecodes(rest[..4], |rest| == 4);
  }

  /** What the encoder writes is always decodable and canonical, so pads stand only at its end. */
  lemma EncodedIsCanonical(bytes: seq<Byte>)
    ensures Decodable(Encode(bytes))
    ensures Encode(bytes) != [] ==>
              DecodableLast(Encode(bytes)[|Encode(bytes)| - 4..]) && CanonicalLast(Encode(bytes)[|Encode(bytes)| - 4..])
  {
    DecodeEncode(bytes);
    DecodesExactly(Encode(bytes));
    ReencodesExactlyWhenCanonical(Encode(bytes));
    hide Encode, Decode, CanonicalLast, DecodableLast;
  }

  /** The decoder is laxer than the encoder: a pad before a symbol, and unused bits that are set, both pass. */
  lemma DecodingIsNotInjective() returns (padFirst: seq<Byte>, zeros: seq<Byte>, stray: seq<Byte>)
    ensures padFirst == [PAD, UPPER_A, UPPER_A, UPPER_A] && zeros == [UPPER_A, UPPER_A, UPPER_A, PAD]
    ensures stray == [UPPER_A, UPPER_A + 1, PAD, PAD]
    ensures Decode(padFirst) == Decode(zeros) == Bytes([0, 0])
    ensures Decode(stray) == Bytes([0]) && Encode([0]) != stray
  {
    hide Decode, Encode, Pads, CharValue, BytesOf, Sum, DecodableLast;
    padFirst, zeros, stray := [PAD, UPPER_A, UPPER_A, UPPER_A], [UPPER_A, UPPER_A, UPPER_A, PAD], [UPPER_A, UPPER_A + 1, PAD, PAD];
    Codes();
    LaxQuad(padFirst, 0, 0, 0, 0, 1);
    LaxQuad(zeros, 0, 0, 0, 0, 1);
    LaxQuad(stray, 0, 1, 0, 0, 2);
    StrayIsNotCanonical(stray);
  }

  lemma Codes()
    ensures CharValue(PAD) == CharValue(UPPER_A) == Some(0) && CharValue(UPPER_A + 1) == Some(1)
    ensures BytesOf(Sum(0, 0, 0, 0), 1) == [0, 0] && BytesOf(Sum(0, 1, 0, 0), 2) == [0]
  {
  }

  lemma LaxQuad(quad: seq<Byte>, a: Sextet, b: Sextet, c: Sextet, d: Sextet, pads: nat)
    requires |quad| == 4 && quad[1] != PAD && 0 < pads <= 2
    requires pads == (if quad[0] == PAD then 1 else 0) + (if quad[2] == PAD then 1 else 0) + (if quad[3] == PAD then 1 else 0)
    requires CharValue(quad[0]) == Some(a) && CharValue(quad[1]) == Some(b)
    requires CharValue(quad[2]) == Some(c) && CharValue(quad[3]) == Some(d)
    ensures DecodableLast(quad) && Decode(quad) == Bytes(BytesOf(Sum(a, b, c, d), pads))
  {
    PadsOfQuad(quad);
    QuadAlone(quad);
    hide Sum, BytesOf, Pads, Decode, CharValue;
  }

  lemma StrayIsNotCanonical(quad: seq<Byte>)
    requires |quad| == 4 && DecodableLast(quad) && quad[2] == PAD && CharValue(quad[1]).value % 16 != 0
    ensures Decode(quad).Bytes? && Encode(Decode(quad).bytes) != quad
  {
    QuadAlone(quad);
    QuadDecodes(quad, true);
    hide DecodeQuad, Decode, Encode, Pads;
    ReencodesExactlyWhenCanonical(quad);
    assert quad[0..] == quad;
  }

  lemma QuadAlone(quad: seq<Byte>)
    requires |quad| == 4
    ensures Decode(quad) == DecodeQuad(quad, true)
  {
    hide DecodeQuad;
    assert quad[..4] == quad && quad[4..] == [];
    DecodeEnds();
  }

  // ------------------------------------------------- as the standard puts it

  /** Table 1 of RFC 4648: A to Z, a to z, 0 to 9, plus and slash. */
  ghost function TableSymbol(value: Sextet): (symbol: char)
  {
    if value < 26 then 'A' + value as char
    else if value < 52 then 'a' + (value - 26) as char
    else if value < 62 then '0' + (value - 52) as char
    else if value == 62 then '+'
    else '/'
  }

  /** Four characters for up to three octets: their bits in six-bit groups, zero-filled, then pads. */
  ghost predicate QuantumOf(octets: seq<Byte>, quad: seq<Byte>)
    requires 1 <= |octets| <= 3
  {
    var first := octets[0];
    var second: Byte := if |octets| > 1 then octets[1] else 0;
    var third: Byte := if |octets| > 2 then octets[2] else 0;
    && |quad| == 4
    && quad[0] as char == TableSymbol(first / 4)
    && quad[1] as char == TableSymbol(first % 4 * 16 + second / 16)
    && quad[2] as char == (if |octets| > 1 then TableSymbol(second % 16 * 4 + third / 64) else '=')
    && quad[3] as char == (if |octets| > 2 then TableSymbol(third % 64) else '=')
  }

  lemma SymbolsOfTable(v: Sextet)
    ensures SymbolOf(v) as char == TableSymbol(v) && PAD as char == '='
  {
  }

  lemma ChunkIsQuantum(octets: seq<Byte>)
    requires 1 <= |octets| <= 3
    ensures QuantumOf(octets, EncodeChunk(octets))
  {
    var first := octets[0];
    var second: Byte := if |octets| > 1 then octets[1] else 0;
    var third: Byte := if |octets| > 2 then octets[2] else 0;
    GroupsOf(first, second, third);
    hide SymbolOf, TableSymbol, Block;
    SymbolsOfTable(first / 4);
    SymbolsOfTable(first % 4 * 16 + second / 16);
    SymbolsOfTable(second % 16 * 4 + third / 64);
    SymbolsOfTable(third % 64);
  }

  lemma GroupsOf(first: Byte, second: Byte, third: Byte)
    ensures var block := Block(first, second, third);
            && block / 0x4_0000 % 64 == first / 4
            && block / 0x1000 % 64 == first % 4 * 16 + second / 16
            && block / 64 % 64 == second % 16 * 4 + third / 64
            && block % 64 == third % 64
  {
    var a: Sextet, b: Sextet := first / 4, first % 4 * 16 + second / 16;
    var c: Sextet, d: Sextet := second % 16 * 4 + third / 64, third % 64;
    assert first == 4 * (first / 4) + first % 4;
    assert second == 16 * (second / 16) + second % 16;
    assert third == 64 * (third / 64) + third % 64;
    assert Block(first, second, third) == Sum(a, b, c, d);
    DigitsOfSum(a, b, c, d);
  }

  lemma SliceOfTail(head: seq<Byte>, tail: seq<Byte>, from: nat, end: nat)
    requires |head| <= from <= end <= |head| + |tail|
    ensures (head + tail)[from..end] == tail[from - |head|..end - |head|]
  {
  }

  /** Every three octets, and the one or two left over, become the four characters the standard gives them, in order. */
  lemma {:induction false} EncodesByTheTable(bytes: seq<Byte>, block: nat)
    requires 3 * block < |bytes|
    ensures 4 * block + 4 <= |Encode(bytes)|
    ensures var end := if 3 * block + 3 < |bytes| then 3 * block + 3 else |bytes|;
            QuantumOf(bytes[3 * block..end], Encode(bytes)[4 * block..4 * block + 4])
    decreases block
  {
    hide EncodeChunk, QuantumOf;
    var end := if 3 * block + 3 < |bytes| then 3 * block + 3 else |bytes|;
    if |bytes| <= 3 {
      ChunkIsQuantum(bytes);
      assert bytes[0..end] == bytes && Encode(bytes)[0..4] == Encode(bytes);
    } else if block == 0 {
      ChunkIsQuantum(bytes[..3]);
      assert bytes[0..3] == bytes[..3] && Encode(bytes)[0..4] == EncodeChunk(bytes[..3]);
    } else {
      var rest := bytes[3..];
      EncodesByTheTable(rest, block - 1);
      SliceOfTail(bytes[..3], rest, 3 * block, end);
      SliceOfTail(EncodeChunk(bytes[..3]), Encode(rest), 4 * block, 4 * block + 4);
      assert bytes == bytes[..3] + rest;
    }
  }
}
