/**
  * The Base64 alphabet of RFC 4648 section 4 (Table 1, "The Base 64 Alphabet"), the
  * character test the decoder applies, and the lookup from a character back to its value.
  */
module Base64Alphabet {
  import opened StdString
  import opened Bytes

  /** `base64_chars`: value k is encoded as `Base64Chars[k]`. */
  const Base64Chars: string :=
    "ABCDEFGHIJKLMNOPQRSTUVWXYZ" +
    "abcdefghijklmnopqrstuvwxyz" +
    "0123456789+/"

  /** `isalnum` in the C locale: an ASCII letter or digit. */
  predicate IsAlnum(c: char) {
    ('A' <= c <= 'Z') || ('a' <= c <= 'z') || ('0' <= c <= '9')
  }

  /** `is_base64`: letters, digits, `+` and `/`. */
  predicate IsBase64(c: char) {
    IsAlnum(c) || c == '+' || c == '/'
  }

  /** Table 1 of RFC 4648, stated by ranges of values rather than by a literal. */
  function TableChar(k: nat): (c: char)
    requires k < 64
  {
    if k < 26 then ('A' as int + k) as char
    else if k < 52 then ('a' as int + (k - 26)) as char
    else if k < 62 then ('0' as int + (k - 52)) as char
    else if k == 62 then '+'
    else '/'
  }

  /** The value Table 1 assigns to an alphabet character: the inverse of `TableChar`. */
  function TableValue(c: char): (k: nat)
    requires IsBase64(c)
    ensures k < 64 && TableChar(k) == c
  {
    if 'A' <= c <= 'Z' then c as int - 'A' as int
    else if 'a' <= c <= 'z' then c as int - 'a' as int + 26
    else if '0' <= c <= '9' then c as int - '0' as int + 52
    else if c == '+' then 62
    else 63
  }

  /** Every character of Table 1 is one `is_base64` accepts. */
  lemma {:induction false} TableCharIsBase64(k: nat)
    requires k < 64
    ensures IsBase64(TableChar(k))
    ensures TableValue(TableChar(k)) == k
  {
    var c := TableChar(k);
    if k < 26 {
      assert 'A' <= c <= 'Z';
    } else if k < 52 {
      assert 'a' <= c <= 'z';
    } else if k < 62 {
      assert '0' <= c <= '9';
    }
  }

  /** `base64_chars` is Table 1. */
  lemma AlphabetIsTable(k: nat)
    requires k < 64
    ensures |Base64Chars| == 64 && Base64Chars[k] == TableChar(k)
  {
  }

  /** No character occurs twice in the alphabet, so a character determines its value. */
  lemma {:induction false} AlphabetDistinct(i: nat, j: nat)
    requires i < 64 && j < 64 && i != j
    ensures Base64Chars[i] != Base64Chars[j]
  {
    AlphabetIsTable(i);
    AlphabetIsTable(j);
    TableCharIsBase64(i);
    TableCharIsBase64(j);
  }

  /** `is_base64(c)` holds exactly for the 64 characters of `base64_chars`. */
  lemma {:induction false} IsBase64Exact(c: char)
    ensures IsBase64(c) <==> c in Base64Chars
  {
    if IsBase64(c) {
      var k := TableValue(c);
      AlphabetIsTable(k);
      assert Base64Chars[k] == c;
    }
    if c in Base64Chars {
      var k :| 0 <= k < |Base64Chars| && Base64Chars[k] == c;
      AlphabetIsTable(k);
      TableCharIsBase64(k);
    }
  }

  /** `base64_chars.find(Base64Chars[k])` is k: the search stops at the value's own position. */
  lemma {:induction false} FindAlphabet(k: nat)
    requires k < 64
    ensures Find(Base64Chars, Base64Chars[k]) == k
  {
    AlphabetIsTable(k);
    FindResult(Base64Chars, Base64Chars[k]);
    var r := Find(Base64Chars, Base64Chars[k]);
    assert Base64Chars[k] in Base64Chars;
    if r < k {
      AlphabetDistinct(r, k);
    }
  }

  /** For any character outside the alphabet, `base64_chars.find` returns `npos`. */
  lemma FindOutside(c: char)
    requires !IsBase64(c)
    ensures Find(Base64Chars, c) == NPos
  {
    IsBase64Exact(c);
    AlphabetIsTable(0);
    FindResult(Base64Chars, c);
  }

  /** Storing a `size_t` into a `BYTE` keeps its low eight bits. */
  function ToByte(n: nat): (b: Byte)
  {
    (n % 256) as Byte
  }

  /** A value below 256 is stored unchanged. */
  lemma ToByteSmall(n: nat)
    requires n < 256
    ensures ToByte(n) as int == n
  {
    assert n % 256 == n;
    ByteOfNat(n);
  }

  /** `npos` stored into a `BYTE` is `0xff`. */
  lemma NPosByte()
    ensures ToByte(NPos) == 0xff
  {
    assert NPos % 256 == 255;
  }

  /** A `char` of a `std::string` stored into a `BYTE`; the text model uses code points below 256. */
  function CharToByte(c: char): (b: Byte)
    requires c as int < 256
    ensures b as int == c as int
  {
    ByteOfNat(c as int);
    c as int as Byte
  }

  /** A `BYTE` passed where a `char` is expected. */
  function ByteToChar(b: Byte): (c: char)
    ensures c as int == b as int
  {
    b as int as char
  }

  /**
    * `base64_chars.find(b)` stored back into a `BYTE`, as the decoder does: the value of an
    * alphabet character, and `0xff` (the low byte of `npos`) for anything else.
    */
  function Lookup(b: Byte): (v: Byte)
  {
    ToByte(Find(Base64Chars, ByteToChar(b)))
  }

  /** A text character below 256, stored into a `BYTE` and passed back as a `char`, is unchanged. */
  lemma CharByteChar(c: char)
    requires c as int < 256
    ensures ByteToChar(CharToByte(c)) == c
  {
  }

  /**
    * What the decoder's lookup gives, read off Table 1: the value of an alphabet character,
    * and `0xff` for any other byte.
    */
  function TableLookup(b: Byte): Byte
  {
    var c := ByteToChar(b);
    if IsBase64(c) then SmallByte(TableValue(c)) else 0xff
  }

  /** `base64_chars.find` narrowed to a `BYTE` agrees with Table 1 on every byte. */
  lemma {:induction false} LookupIsTable(b: Byte)
    ensures Lookup(b) == TableLookup(b)
  {
    var c := ByteToChar(b);
    if IsBase64(c) {
      var k := TableValue(c);
      AlphabetIsTable(k);
      FindAlphabet(k);
      ToByteSmall(k);
      assert Lookup(b) as int == SmallByte(k) as int;
    } else {
      FindOutside(c);
      NPosByte();
    }
  }

  /** The zero byte the decoder puts in unused slots is not in the alphabet, so it looks up as `0xff`. */
  lemma LookupZero()
    ensures Lookup(0) == 0xff
  {
    LookupIsTable(0);
  }
}
