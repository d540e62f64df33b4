/**
 * The hex codec of app.js: `hexToBytes` splits a hex string into two-character
 * chunks parsed with `parseInt(_, 16)`; `intToHex` renders a number as the last
 * two characters of `"00" + n.toString(16)`.
 */
module HexCodec {
  import opened JsNumber
  import opened JsText

  type Byte = b: int | 0 <= b < 256

  /** The `i`-th chunk `hexToBytes` reads: `hex.substr(2 * i, 2)`. */
  function Chunk(hex: string, i: nat): string {
    Substr(hex, 2 * i, 2)
  }

  /** What `hexToBytes(hex)` returns: one parsed number per chunk. */
  function HexBytes(hex: string): (bytes: seq<Num>)
    ensures |bytes| == (|hex| + 1) / 2
    decreases |hex|
  {
    if |hex| <= 2 then
      if hex == [] then [] else [ParseIntHex(hex)]
    else [ParseIntHex(hex[..2])] + HexBytes(hex[2..])
  }

  /** Number `i` of `hexToBytes(hex)` is the parsed chunk `i`. */
  lemma {:induction false} HexBytesAt(hex: string, i: nat)
    requires i < (|hex| + 1) / 2
    ensures HexBytes(hex)[i] == ParseIntHex(Chunk(hex, i))
    decreases |hex|
  {
    if |hex| <= 2 {
      assert Chunk(hex, 0) == hex;
    } else if i == 0 {
      assert Chunk(hex, 0) == hex[..2];
    } else {
      HexBytesAt(hex[2..], i - 1);
      ChunkShift(hex, i);
    }
  }

  /** Dropping the first chunk shifts the chunk indices by one. */
  lemma ChunkShift(hex: string, i: nat)
    requires |hex| > 2 && i >= 1
    ensures Chunk(hex[2..], i - 1) == Chunk(hex, i)
  {
    var t := hex[2..];
    if 2 * i < |hex| {
      var e := Min(2 * i + 2, |hex|);
      assert Min(2 * (i - 1) + 2, |t|) == e - 2;
      assert t[2 * (i - 1)..e - 2] == hex[2 * i..e];
    }
  }

  /** `hexToBytes`: the loop of app.js pushing one parsed chunk per step. */
  method HexToBytes(hex: string) returns (bytes: seq<Num>)
    ensures bytes == HexBytes(hex)
  {
    bytes := [];
    var c := 0;
    while c < |hex|
      invariant c % 2 == 0 && c <= |hex| + 1
      invariant |bytes| == c / 2
      invariant forall i :: 0 <= i < |bytes| ==> bytes[i] == ParseIntHex(Chunk(hex, i))
    {
      bytes := bytes + [ParseIntHex(Substr(hex, c, 2))];
      c := c + 2;
    }
    forall i | 0 <= i < |bytes|
      ensures bytes[i] == HexBytes(hex)[i]
    {
      HexBytesAt(hex, i);
    }
  }

  /** On a string of hex digits every number `hexToBytes` yields is a byte:
      the value of that chunk's one or two digits. */
  lemma HexBytesOfDigits(hex: string)
    requires AllHex(hex)
    ensures forall i :: 0 <= i < |HexBytes(hex)| ==>
      HexBytes(hex)[i].Int? && 0 <= HexBytes(hex)[i].value < 256
    ensures forall i :: 0 <= i && 2 * i + 1 < |hex| ==>
      HexBytes(hex)[i] == Int(16 * DigitValue(hex[2 * i]) + DigitValue(hex[2 * i + 1]))
    ensures |hex| % 2 == 1 ==>
      HexBytes(hex)[|hex| / 2] == Int(DigitValue(hex[|hex| - 1]))
  {
    var bytes := HexBytes(hex);
    forall i | 0 <= i < |bytes|
      ensures bytes[i].Int? && 0 <= bytes[i].value < 256
    {
      ByteOfDigits(hex, i);
    }
    forall i | 0 <= i && 2 * i + 1 < |hex|
      ensures bytes[i] == Int(16 * DigitValue(hex[2 * i]) + DigitValue(hex[2 * i + 1]))
    {
      ByteOfDigits(hex, i);
    }
    if |hex| % 2 == 1 {
      var k := |hex| / 2;
      assert 2 * k == |hex| - 1;
      ByteOfDigits(hex, k);
      assert ChunkValue(hex, k) == DigitValue(hex[|hex| - 1]);
    }
  }

  lemma ByteOfDigits(hex: string, i: nat)
    requires AllHex(hex) && 2 * i < |hex|
    ensures i < |HexBytes(hex)|
    ensures HexBytes(hex)[i] == Int(ChunkValue(hex, i)) && ChunkValue(hex, i) < 256
  {
    HexBytesAt(hex, i);
    ParseChunk(hex, i);
  }

  function ChunkValue(hex: string, i: nat): nat
    requires AllHex(hex) && 2 * i < |hex|
  {
    if 2 * i + 1 < |hex| then 16 * DigitValue(hex[2 * i]) + DigitValue(hex[2 * i + 1])
    else DigitValue(hex[2 * i])
  }

  lemma ParseChunk(hex: string, i: nat)
    requires AllHex(hex) && 2 * i < |hex|
    ensures ParseIntHex(Chunk(hex, i)) == Int(ChunkValue(hex, i))
  {
    if 2 * i + 1 < |hex| {
      assert Chunk(hex, i) == [hex[2 * i], hex[2 * i + 1]];
      ParseTwoDigits(hex[2 * i], hex[2 * i + 1]);
    } else {
      assert Chunk(hex, i) == [hex[2 * i]];
      ParseOneDigit(hex[2 * i]);
    }
  }

  lemma ParseOneDigit(c: char)
    requires IsHexDigit(c)
    ensures ParseIntHex([c]) == Int(DigitValue(c))
  {
    assert [c][..0] == [];
    ParseIntHexDigits([c]);
  }

  lemma ParseTwoDigits(c: char, d: char)
    requires IsHexDigit(c) && IsHexDigit(d)
    ensures ParseIntHex([c, d]) == Int(16 * DigitValue(c) + DigitValue(d))
  {
    assert [c, d][..1] == [c];
    assert [c][..0] == [];
    ParseIntHexDigits([c, d]);
  }

  /** `intToHex(n)`: `("00" + n.toString(16)).slice(-2)`; always two characters. */
  function IntToHex(n: Num): (s: string)
    ensures |s| == 2
  {
    SliceLast("00" + ToStringHex(n), 2)
  }

  /** A byte renders as its two lower-case hex digits. */
  lemma IntToHexByte(b: Byte)
    ensures IntToHex(Int(b)) == [DigitChar(b / 16), DigitChar(b % 16)]
  {
    var h := HexDigits(b);
    SliceLastIsSuffix("00" + h, 2);
    if b >= 16 {
      assert HexDigits(b / 16) == [DigitChar(b / 16)];
    }
    if b < 16 {
      assert h == [DigitChar(b)];
      assert "00" + h == ['0', '0', DigitChar(b)];
      assert DigitChar(0) == '0';
    } else {
      assert h == HexDigits(b / 16) + [DigitChar(b % 16)];
      assert HexDigits(b / 16) == [DigitChar(b / 16)];
      assert "00" + h == ['0', '0', DigitChar(b / 16), DigitChar(b % 16)];
    }
  }

  /** The two characters `intToHex(b)` yields are hex digits of value `b`. */
  lemma IntToHexDigits(b: Byte)
    ensures AllHex(IntToHex(Int(b)))
    ensures HexValue(IntToHex(Int(b))) == b
  {
    IntToHexByte(b);
    var s := IntToHex(Int(b));
    assert s[..1] == [s[0]];
    assert [s[0]][..0] == [];
  }

  /** `parseInt(intToHex(b), 16) == b` for every byte. */
  lemma IntToHexParse(b: Byte)
    ensures ParseIntHex(IntToHex(Int(b))) == Int(b)
  {
    IntToHexDigits(b);
    ParseIntHexDigits(IntToHex(Int(b)));
  }

  /** The decoder's two-byte join is big-endian:
      `parseInt(intToHex(a) + intToHex(b), 16) == 256 * a + b`. */
  lemma IntToHexPair(a: Byte, b: Byte)
    ensures ParseIntHex(IntToHex(Int(a)) + IntToHex(Int(b))) == Int(256 * a + b)
  {
    IntToHexDigits(a);
    IntToHexDigits(b);
    ParseDigitPair(IntToHex(Int(a)), IntToHex(Int(b)));
  }

  lemma ParseDigitPair(x: string, y: string)
    requires AllHex(x) && AllHex(y) && |x| >= 1 && |y| == 2
    ensures ParseIntHex(x + y) == Int(256 * HexValue(x) + HexValue(y))
  {
    var z := x + y;
    HexValueAppend(x, y);
    assert Pow16(|y|) == 256 by {
      assert Pow16(2) == 256;
    }
    ScaleBy256(HexValue(z), HexValue(x), Pow16(|y|), HexValue(y));
    ParseIntHexDigits(z);
  }

  lemma ScaleBy256(v: int, a: int, p: int, b: int)
    requires v == a * p + b && p == 256
    ensures v == 256 * a + b
  {
  }

  /** The concatenated `intToHex` renderings of a byte sequence. */
  function EncodeBytes(bs: seq<Byte>): (hex: string)
    ensures |hex| == 2 * |bs|
  {
    if bs == [] then "" else IntToHex(Int(bs[0])) + EncodeBytes(bs[1..])
  }

  function Ints(bs: seq<Byte>): (ns: seq<Num>)
    ensures |ns| == |bs|
    ensures forall i :: 0 <= i < |bs| ==> ns[i] == Int(bs[i])
  {
    seq(|bs|, i requires 0 <= i < |bs| => Int(bs[i]))
  }

  /** `hexToBytes` inverts the concatenated `intToHex` renderings. */
  lemma {:induction false} HexBytesEncodeBytes(bs: seq<Byte>)
    ensures HexBytes(EncodeBytes(bs)) == Ints(bs)
  {
    if bs != [] {
      var x := IntToHex(Int(bs[0]));
      var hex := EncodeBytes(bs);
      HexBytesEncodeBytes(bs[1..]);
      IntToHexParse(bs[0]);
      assert hex == x + EncodeBytes(bs[1..]);
      assert hex[..2] == x;
      assert hex[2..] == EncodeBytes(bs[1..]);
      if |bs| == 1 {
        assert hex == x;
      }
      assert Ints(bs) == [Int(bs[0])] + Ints(bs[1..]);
    }
  }

  /** The bytes an even-length string of hex digits spells, two digits each. */
  function PairValues(hex: string): (bs: seq<Byte>)
    requires AllHex(hex) && |hex| % 2 == 0
    ensures |bs| == |hex| / 2
  {
    seq(|hex| / 2, i requires 0 <= i < |hex| / 2 => 16 * DigitValue(hex[2 * i]) + DigitValue(hex[2 * i + 1]))
  }

  /** On an even-length string of hex digits `hexToBytes` reads exactly those bytes. */
  lemma HexBytesPairValues(hex: string)
    requires AllHex(hex) && |hex| % 2 == 0
    ensures HexBytes(hex) == Ints(PairValues(hex))
  {
    var bytes, ns := HexBytes(hex), Ints(PairValues(hex));
    forall i | 0 <= i < |bytes|
      ensures bytes[i] == ns[i]
    {
      PairByte(hex, i);
    }
  }

  lemma PairByte(hex: string, i: nat)
    requires AllHex(hex) && |hex| % 2 == 0 && i < |hex| / 2
    ensures i < |HexBytes(hex)| && HexBytes(hex)[i] == Int(PairValues(hex)[i])
  {
    assert 2 * i + 1 < |hex|;
    ByteOfDigits(hex, i);
  }

  /** Conversely, a lower-case hex string of even length is the `intToHex`
      rendering of the bytes `hexToBytes` reads from it. */
  lemma {:induction false} EncodePairValues(hex: string)
    requires AllHex(hex) && |hex| % 2 == 0
    requires forall k :: 0 <= k < |hex| ==> !IsUpper(hex[k])
    ensures EncodeBytes(PairValues(hex)) == hex
    decreases |hex|
  {
    if hex != [] {
      var tail := hex[2..];
      assert forall k :: 0 <= k < |tail| ==> tail[k] == hex[k + 2];
      PairValuesTail(hex);
      EncodePairValues(tail);
      var bs := PairValues(hex);
      EncodeHead(hex);
      assert EncodeBytes(bs) == IntToHex(Int(bs[0])) + EncodeBytes(bs[1..]);
      assert hex[..2] + tail == hex;
    }
  }

  lemma EncodeHead(hex: string)
    requires AllHex(hex) && |hex| % 2 == 0 && |hex| >= 2
    requires !IsUpper(hex[0]) && !IsUpper(hex[1])
    ensures IntToHex(Int(PairValues(hex)[0])) == hex[..2]
  {
    PairValuesTail(hex);
    LowerDigit(hex[0]);
    LowerDigit(hex[1]);
    RenderPair(DigitValue(hex[0]), DigitValue(hex[1]));
  }

  lemma RenderPair(hi: nat, lo: nat)
    requires hi < 16 && lo < 16
    ensures IntToHex(Int(16 * hi + lo)) == [DigitChar(hi), DigitChar(lo)]
  {
    var b := 16 * hi + lo;
    assert b / 16 == hi && b % 16 == lo;
    IntToHexByte(b);
  }
  lemma PairValuesTail(hex: string)
    requires AllHex(hex) && |hex| % 2 == 0 && |hex| >= 2
    ensures AllHex(hex[2..])
    ensures PairValues(hex)[1..] == PairValues(hex[2..])
    ensures PairValues(hex)[0] == 16 * DigitValue(hex[0]) + DigitValue(hex[1])
  {
    var tail := hex[2..];
    assert forall k :: 0 <= k < |tail| ==> tail[k] == hex[k + 2];
    var a, b := PairValues(hex)[1..], PairValues(tail);
    forall i | 0 <= i < |a|
      ensures a[i] == b[i]
    {
      assert tail[2 * i] == hex[2 * (i + 1)];
      assert tail[2 * i + 1] == hex[2 * (i + 1) + 1];
    }
  }

  /** A lower-case hex digit is the rendering of its own value. */
  lemma LowerDigit(c: char)
    requires IsHexDigit(c) && !IsUpper(c)
    ensures DigitChar(DigitValue(c)) == c
  {
  }
}
