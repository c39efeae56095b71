/**
  * Base64 as RFC 4648 section 4 defines it: input bytes are taken 24 bits at a time, each
  * 24-bit group is split into four 6-bit values, each value selects one alphabet character,
  * and a final group of one or two bytes is padded with zero bits and then with `=`.
  * The decoding side states what this project's decoder computes: it reads the longest
  * prefix of alphabet characters and turns each group of four back into three bytes, and a
  * final group of k characters into k - 1 bytes.
  */
module Base64Spec {
  import opened StdString
  import opened Bytes
  import opened Base64Alphabet

  /** The four 6-bit values of the 24-bit group `b0 b1 b2`, most significant first. */
  function Sextets(b0: Byte, b1: Byte, b2: Byte): (s: seq<Byte>)
    ensures |s| == 4
    ensures forall k :: 0 <= k < 4 ==> s[k] < 64
  {
    var n: bv24 := (b0 as bv24 << 16) | (b1 as bv24 << 8) | b2 as bv24;
    [(n >> 18) as Byte, ((n >> 12) & 0x3f) as Byte, ((n >> 6) & 0x3f) as Byte, (n & 0x3f) as Byte]
  }

  /** The three bytes of the 24-bit group made of the 6-bit values `v0 v1 v2 v3`. */
  function Octets(v0: Byte, v1: Byte, v2: Byte, v3: Byte): (b: seq<Byte>)
    requires v0 < 64 && v1 < 64 && v2 < 64 && v3 < 64
    ensures |b| == 3
  {
    var n: bv24 := (v0 as bv24 << 18) | (v1 as bv24 << 12) | (v2 as bv24 << 6) | v3 as bv24;
    [(n >> 16) as Byte, ((n >> 8) & 0xff) as Byte, (n & 0xff) as Byte]
  }

  /** Splitting into 6-bit values and joining them again gives back the three bytes. */
  lemma OctetsOfSextets(b0: Byte, b1: Byte, b2: Byte)
    ensures var s := Sextets(b0, b1, b2);
            Octets(s[0], s[1], s[2], s[3]) == [b0, b1, b2]
  {
  }

  /** The alphabet character for each 6-bit value. */
  function Chars(s: seq<Byte>): (r: string)
    requires forall k :: 0 <= k < |s| ==> s[k] < 64
    ensures |r| == |s|
    ensures forall k :: 0 <= k < |r| ==> r[k] == TableChar(s[k] as int)
    decreases |s|
  {
    if s == [] then [] else [TableChar(s[0] as int)] + Chars(s[1..])
  }

  /** The four characters encoding one full 24-bit group. */
  function Quantum(b0: Byte, b1: Byte, b2: Byte): (r: string)
  {
    Chars(Sextets(b0, b1, b2))
  }

  /** Full groups, each of three bytes; the last group is encoded last. */
  function EncodeGroups(b: seq<Byte>): (r: string)
    requires |b| % 3 == 0
    decreases |b|
  {
    if b == [] then []
    else
      var k := |b| - 3;
      EncodeGroups(b[..k]) + Quantum(b[k], b[k + 1], b[k + 2])
  }

  /**
    * The characters of a final quantum of fewer than 24 bits: it is completed with zero bits,
    * and one byte gives two characters, two bytes three.
    */
  function TailChars(t: seq<Byte>): (r: string)
    requires |t| < 3
  {
    if |t| == 0 then [] else Quantum(t[0], if |t| == 2 then t[1] else 0, 0)[..|t| + 1]
  }

  /** The final quantum, followed by `=` up to a multiple of four characters. */
  function EncodeTail(t: seq<Byte>): (r: string)
    requires |t| < 3
  {
    TailChars(t) + (if |t| == 0 then "" else if |t| == 1 then "==" else "=")
  }

  /** The number of bytes in full 24-bit groups. */
  function FullLength(n: nat): (k: nat)
    ensures k <= n && k % 3 == 0 && n - k < 3
  {
    n - n % 3
  }

  /** Base64 encoding of `b` with padding (RFC 4648 section 4). */
  function Encode(b: seq<Byte>): (r: string)
  {
    var k := FullLength(|b|);
    EncodeGroups(b[..k]) + EncodeTail(b[k..])
  }

  /** The characters the decoder accepts: alphabet characters other than `=`. */
  predicate Accepted(c: char) {
    c != '=' && IsBase64(c)
  }

  /** The length of the longest prefix of `s` made of accepted characters. */
  function StopIndex(s: string): (k: nat)
    ensures k <= |s|
    ensures forall i :: 0 <= i < k ==> Accepted(s[i])
    ensures k < |s| ==> !Accepted(s[k])
    decreases |s|
  {
    if s == [] || !Accepted(s[0]) then 0 else 1 + StopIndex(s[1..])
  }

  /** The 6-bit value of an alphabet character. */
  function Value(c: char): (v: Byte)
    requires IsBase64(c)
    ensures v < 64 && v as int == TableValue(c)
  {
    SmallByte(TableValue(c))
  }

  predicate AllBase64(t: string) {
    forall i :: 0 <= i < |t| ==> IsBase64(t[i])
  }

  /** Full groups of four characters, each giving three bytes; the last group is decoded last. */
  function DecodeGroups(t: string): (r: seq<Byte>)
    requires |t| % 4 == 0 && AllBase64(t)
    decreases |t|
  {
    if t == [] then []
    else
      var k := |t| - 4;
      DecodeGroups(t[..k]) + Octets(Value(t[k]), Value(t[k + 1]), Value(t[k + 2]), Value(t[k + 3]))
  }

  /**
    * A final group of fewer than four characters, read with zero bits in place of the
    * missing ones: k characters give k - 1 bytes, and a single character gives none.
    */
  function DecodeTail(t: string): (r: seq<Byte>)
    requires |t| < 4 && AllBase64(t)
  {
    if |t| <= 1 then []
    else
      var v2 := if |t| == 3 then Value(t[2]) else 0;
      Octets(Value(t[0]), Value(t[1]), v2, 0)[..|t| - 1]
  }

  /** What the decoder yields for the text `s`: the accepted prefix, decoded group by group. */
  function Decode(s: string): (r: seq<Byte>)
  {
    var t := s[..StopIndex(s)];
    var k := |t| - |t| % 4;
    DecodeGroups(t[..k]) + DecodeTail(t[k..])
  }
}
