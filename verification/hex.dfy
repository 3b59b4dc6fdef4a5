/** Node public keys (`route.Vertex`) and their hexadecimal text form, as
    produced by Go's `hex.EncodeToString` and read by `route.NewVertexFromStr`. */
module Hex {
  import opened Wrappers

  newtype byte = x: int | 0 <= x < 256

  /** A compressed public key is 33 bytes long. */
  const VertexSize: nat := 33

  /** A node public key (`route.Vertex`, a 33-byte array). */
  type Vertex = v: seq<byte> | |v| == VertexSize witness ZeroVertex()

  function ZeroVertex(): (v: seq<byte>)
    ensures |v| == VertexSize
  {
    seq(VertexSize, _ => 0 as byte)
  }

  /** The lower-case digit of a nibble, from the table "0123456789abcdef". */
  function LowerDigit(n: nat): (c: char)
    requires n < 16
  {
    if n < 10 then ('0' as int + n) as char else ('a' as int + n - 10) as char
  }

  /** The two lower-case digits of one byte, high nibble first. */
  function HexPair(b: byte): (s: string)
    ensures |s| == 2
  {
    [LowerDigit(b as int / 16), LowerDigit(b as int % 16)]
  }

  /** Lower-case hexadecimal, two characters per byte, high nibble first. */
  function HexEncode(bs: seq<byte>): (s: string)
    ensures |s| == 2 * |bs|
  {
    if |bs| == 0 then ""
    else HexPair(bs[0]) + HexEncode(bs[1..])
  }

  /** The value of one hexadecimal digit; both letter cases are accepted. */
  function NibbleValue(c: char): (r: Option<nat>)
    ensures r.Some? ==> r.value < 16
  {
    if '0' <= c <= '9' then Some(c as int - '0' as int)
    else if 'a' <= c <= 'f' then Some(c as int - 'a' as int + 10)
    else if 'A' <= c <= 'F' then Some(c as int - 'A' as int + 10)
    else None
  }

  lemma NibbleOfLowerDigit(n: nat)
    requires n < 16
    ensures NibbleValue(LowerDigit(n)) == Some(n)
  {
  }

  /** Reads the text two digits at a time; a non-hex digit or a single
      trailing digit gives None. */
  function DecodePairs(s: string): (r: Option<seq<byte>>)
    ensures r.Some? ==> 2 * |r.value| == |s|
  {
    if |s| == 0 then Some([])
    else if |s| == 1 then None
    else
      var hi, lo, rest := NibbleValue(s[0]), NibbleValue(s[1]), DecodePairs(s[2..]);
      if hi.Some? && lo.Some? && rest.Some? then Some([(hi.value * 16 + lo.value) as byte] + rest.value)
      else None
  }

  /** Go `hex.DecodeString`: None for odd length or a non-hex character. */
  function HexDecode(s: string): (r: Option<seq<byte>>)
    ensures r.Some? ==> 2 * |r.value| == |s|
  {
    if |s| % 2 == 1 then None else DecodePairs(s)
  }

  /** A byte's two digits are those of its high and low nibble, and the
      nibbles put back together give the byte. */
  lemma PairNibbles(b: byte)
    ensures b as int / 16 < 16
    ensures HexPair(b) == [LowerDigit(b as int / 16), LowerDigit(b as int % 16)]
    ensures ((b as int / 16) * 16 + b as int % 16) as byte == b
  {
  }

  /** Decoding reads one byte from the first two digits and the rest from
      the remaining text. */
  lemma DecodeCons(s: string, hi: nat, lo: nat, rest: seq<byte>)
    requires |s| >= 2 && hi < 16 && lo < 16
    requires NibbleValue(s[0]) == Some(hi) && NibbleValue(s[1]) == Some(lo)
    requires DecodePairs(s[2..]) == Some(rest)
    ensures DecodePairs(s) == Some([(hi * 16 + lo) as byte] + rest)
  {
  }

  lemma {:induction false} DecodePairsRoundTrip(bs: seq<byte>)
    ensures DecodePairs(HexEncode(bs)) == Some(bs)
  {
    if |bs| > 0 {
      DecodePairsRoundTrip(bs[1..]);
      DecodeByteCons(bs[0], HexEncode(bs[1..]), bs[1..]);
      assert [bs[0]] + bs[1..] == bs;
    }
  }

  /** A byte's two digits in front of decodable text decode to that byte
      in front of what the text decodes to. */
  lemma DecodeByteCons(b: byte, t: string, rest: seq<byte>)
    requires DecodePairs(t) == Some(rest)
    ensures DecodePairs(HexPair(b) + t) == Some([b] + rest)
  {
    PairNibbles(b);
    DigitsCons(b as int / 16, b as int % 16, t, rest);
  }

  /** Two nibble digits in front of decodable text decode to their byte
      in front of what the text decodes to. */
  lemma DigitsCons(hi: nat, lo: nat, t: string, rest: seq<byte>)
    requires hi < 16 && lo < 16 && DecodePairs(t) == Some(rest)
    ensures DecodePairs([LowerDigit(hi), LowerDigit(lo)] + t) == Some([(hi * 16 + lo) as byte] + rest)
  {
    var s := [LowerDigit(hi), LowerDigit(lo)] + t;
    NibbleOfLowerDigit(hi);
    NibbleOfLowerDigit(lo);
    assert s[0] == LowerDigit(hi) && s[1] == LowerDigit(lo) && s[2..] == t;
    DecodeCons(s, hi, lo, rest);
  }

  /** Decoding the encoding of any byte string gives it back. */
  lemma HexRoundTrip(bs: seq<byte>)
    ensures HexDecode(HexEncode(bs)) == Some(bs)
  {
    DecodePairsRoundTrip(bs);
    TwiceIsEven(|bs|);
  }

  lemma TwiceIsEven(n: nat)
    ensures (2 * n) % 2 == 0
  {
  }

  /** Why a text is not a node key: its length in characters is not
      66, or it is not hexadecimal. */
  datatype VertexError = InvalidLength(length: nat) | InvalidHex(text: string)

  /** `route.NewVertexFromStr`: the length of the text is checked before
      it is decoded, so text of the wrong length is a length error even
      when it is not hexadecimal. It accepts exactly the hexadecimal text
      of 33 bytes. */
  function VertexFromStr(s: string): (r: Result<Vertex, VertexError>)
    ensures r.Ok? <==> HexDecode(s).Some? && |HexDecode(s).value| == VertexSize
    ensures r.Ok? ==> r.value == HexDecode(s).value
    ensures |s| != 2 * VertexSize ==> r == Err(InvalidLength(|s|))
  {
    if |s| != 2 * VertexSize then Err(InvalidLength(|s|))
    else
      match HexDecode(s)
      case None => Err(InvalidHex(s))
      case Some(bs) => Ok(bs)
  }

  /** Every 33-byte key survives a trip through its text form. */
  lemma VertexRoundTrip(v: Vertex)
    ensures VertexFromStr(HexEncode(v)) == Ok(v)
  {
    HexRoundTrip(v);
  }

  /** A key in the text form the daemon itself writes. */
  predicate IsCanonicalKey(s: string) {
    VertexFromStr(s).Ok? && HexEncode(VertexFromStr(s).value) == s
  }

  lemma EncodedIsCanonical(v: Vertex)
    ensures IsCanonicalKey(HexEncode(v))
  {
    VertexRoundTrip(v);
  }
}
