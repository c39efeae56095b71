/**
  * `base64_encode` and `base64_decode` as the C++ writes them: a counter of the input still to
  * read, a position that moves forward, the scratch buffers `char_array_3` and `char_array_4`
  * refilled in place, and a result grown one element at a time. Each is proved to compute the
  * functions of `Base64Spec`. The statements that fill one scratch buffer from the other, and
  * the small `for` loops over a buffer, are methods of their own.
  */
module Base64Codec {
  import opened StdString
  import opened Bytes
  import opened Base64Alphabet
  import opened Base64Spec
  import opened Base64Properties

  // ---------------------------------------------------------------------------------------------
  // Encoding

  /** The mask-and-shift expressions of the encoder give the four 6-bit values of the 24-bit group. */
  lemma EncodeBitsAreSextets(c0: Byte, c1: Byte, c2: Byte)
    ensures Sextets(c0, c1, c2) ==
      [(c0 & 0xfc) >> 2, ((c0 & 0x03) << 4) + ((c1 & 0xf0) >> 4),
       ((c1 & 0x0f) << 2) + ((c2 & 0xc0) >> 6), c2 & 0x3f]
  {
  }

  /** Cuts the three bytes of `char_array_3` into the four 6-bit values of `char_array_4`. */
  method SplitGroup(charArray3: array<Byte>, charArray4: array<Byte>)
    requires charArray3.Length == 3 && charArray4.Length == 4
    modifies charArray4
    ensures charArray4[..] == Sextets(charArray3[0], charArray3[1], charArray3[2])
  {
    ghost var c0, c1, c2 := charArray3[0], charArray3[1], charArray3[2];
    charArray4[0] := (charArray3[0] & 0xfc) >> 2;
    charArray4[1] := ((charArray3[0] & 0x03) << 4) + ((charArray3[1] & 0xf0) >> 4);
    charArray4[2] := ((charArray3[1] & 0x0f) << 2) + ((charArray3[2] & 0xc0) >> 6);
    charArray4[3] := charArray3[2] & 0x3f;
    EncodeBitsAreSextets(c0, c1, c2);
  }

  /** Appending the alphabet character of one more 6-bit value. */
  lemma {:induction false} CharsSnoc(s: seq<Byte>, i: nat)
    requires i < |s| && forall k :: 0 <= k < |s| ==> s[k] < 64
    ensures s[i] as int < |Base64Chars|
    ensures Chars(s[..i + 1]) == Chars(s[..i]) + [Base64Chars[s[i] as int]]
  {
    AlphabetIsTable(s[i] as int);
    var x, y := Chars(s[..i + 1]), Chars(s[..i]) + [Base64Chars[s[i] as int]];
    assert |x| == |y|;
    forall k | 0 <= k < |x| ensures x[k] == y[k] {
      if k < i {
        assert s[..i + 1][k] == s[..i][k];
      }
    }
  }

  /**
    * `for (i = 0; i < count; i++) ret += base64_chars[char_array_4[i]];`: the alphabet
    * characters of the first `count` values of `char_array_4`, appended to `prefix`.
    */
  method AppendAlphabetChars(prefix: string, charArray4: array<Byte>, count: nat) returns (ret: string)
    requires count <= charArray4.Length
    requires forall k :: 0 <= k < count ==> charArray4[k] < 64
    ensures ret == prefix + Chars(charArray4[..count])
  {
    ret := prefix;
    var i := 0;
    while i < count
      invariant 0 <= i <= count
      invariant ret == prefix + Chars(charArray4[..count][..i])
    {
      CharsSnoc(charArray4[..count], i);
      ret := ret + [Base64Chars[charArray4[i] as int]];
      i := i + 1;
    }
    assert charArray4[..count][..count] == charArray4[..count];
  }

  /** One more full group of three bytes adds its four characters. */
  lemma {:induction false} EncodeGroupsStep(b: seq<Byte>, d: nat)
    requires d + 3 <= |b| && d % 3 == 0
    ensures (d + 3) % 3 == 0
    ensures EncodeGroups(b[..d + 3]) == EncodeGroups(b[..d]) + Quantum(b[d], b[d + 1], b[d + 2])
  {
    var g := b[..d + 3];
    assert g[..d] == b[..d];
    assert g[d] == b[d] && g[d + 1] == b[d + 1] && g[d + 2] == b[d + 2];
  }

  /**
    * The `if (i == 3)` block of `base64_encode`: the three bytes of `char_array_3`, the group of
    * input bytes `b[d..d + 3]`, add their four characters to the text of `b[..d]`.
    */
  method EncodeFullGroup(prefix: string, charArray3: array<Byte>, charArray4: array<Byte>,
                         ghost b: seq<Byte>, ghost d: nat)
      returns (ret: string)
    requires charArray3.Length == 3 && charArray4.Length == 4
    requires d + 3 <= |b| && d % 3 == 0 && charArray3[..] == b[d..d + 3]
    requires prefix == EncodeGroups(b[..d])
    modifies charArray4
    ensures (d + 3) % 3 == 0 && ret == EncodeGroups(b[..d + 3])
  {
    assert charArray3[0] == b[d] && charArray3[1] == b[d + 1] && charArray3[2] == b[d + 2];
    SplitGroup(charArray3, charArray4);
    ret := AppendAlphabetChars(prefix, charArray4, 4);
    assert charArray4[..4] == charArray4[..];
    EncodeGroupsStep(b, d);
  }

  /** A final group of one or two bytes, completed with zero bytes, gives the tail characters. */
  lemma {:induction false} TailFromCompleted(t: seq<Byte>, c0: Byte, c1: Byte, c2: Byte)
    requires 0 < |t| < 3
    requires c0 == t[0] && c1 == (if |t| == 2 then t[1] else 0) && c2 == 0
    ensures Chars(Sextets(c0, c1, c2)[..|t| + 1]) == TailChars(t)
  {
    var s := Sextets(c0, c1, c2);
    var x, y := Chars(s[..|t| + 1]), TailChars(t);
    assert |x| == |y|;
    forall k | 0 <= k < |x| ensures x[k] == y[k] {
      assert s[..|t| + 1][k] == s[k];
    }
  }

  /** The `=` after the characters of a final group of one or two bytes. */
  lemma EncodeTailPadded(t: seq<Byte>)
    requires 0 < |t| < 3
    ensures EncodeTail(t) == TailChars(t) + "=="[..3 - |t|]
  {
  }

  /** The encoding of `b`, split after the `d` bytes of its full groups. */
  lemma {:induction false} EncodeSplit(b: seq<Byte>, d: nat)
    requires d <= |b| && d % 3 == 0 && |b| - d < 3
    ensures Encode(b) == EncodeGroups(b[..d]) + EncodeTail(b[d..])
  {
    assert FullLength(|b|) == d;
  }

  /**
    * The `if (i)` block of `base64_encode`: the `count` bytes left in `char_array_3` are
    * completed with zero bytes, `count + 1` characters are written, then the `=` padding.
    */
  method EncodeFinalGroup(prefix: string, charArray3: array<Byte>, charArray4: array<Byte>, count: nat)
      returns (ret: string)
    requires charArray3.Length == 3 && charArray4.Length == 4 && 0 < count < 3
    modifies charArray3, charArray4
    ensures ret == prefix + EncodeTail(old(charArray3[..count]))
  {
    ghost var t := charArray3[..count];
    var i := count;
    var j := i;
    while j < 3
      invariant i <= j <= 3
      invariant forall k :: 0 <= k < i ==> charArray3[k] == t[k]
      invariant forall k :: i <= k < j ==> charArray3[k] == 0
    {
      charArray3[j] := 0;
      j := j + 1;
    }
    SplitGroup(charArray3, charArray4);
    TailFromCompleted(t, charArray3[0], charArray3[1], charArray3[2]);
    ret := AppendAlphabetChars(prefix, charArray4, i + 1);

    // `while ((i++ < 3)) ret += '=';` adds one `=` for each byte missing from the group.
    ghost var body := ret;
    while i < 3
      invariant count <= i <= 3
      invariant ret == body + "=="[..i - count]
    {
      i := i + 1;
      ret := ret + "=";
    }
    EncodeTailPadded(t);
  }

  /** `base64_encode(buf, bufLen)`: the Base64 text of the first `bufLen` bytes of `buf`. */
  method Base64Encode(buf: array<Byte>, bufLen: nat) returns (ret: string)
    requires bufLen <= buf.Length
    ensures ret == Encode(buf[..bufLen])
  {
    ghost var b := buf[..bufLen];
    ret := "";
    var i := 0;
    var charArray3 := new Byte[3];
    var charArray4 := new Byte[4];
    var remaining := bufLen;  // `bufLen--` counts the bytes still to read
    var p := 0;               // `buf++` moves through the input
    ghost var done := 0;      // the bytes of the full groups encoded so far
    while remaining > 0
      invariant p + remaining == |b| && p == done + i && 0 <= i < 3
      invariant forall k :: 0 <= k < i ==> charArray3[k] == b[done + k]
      invariant done % 3 == 0 && ret == EncodeGroups(b[..done])
    {
      remaining := remaining - 1;
      charArray3[i] := buf[p];
      i := i + 1;
      p := p + 1;
      if i == 3 {
        assert charArray3[..] == b[done..done + 3];
        ret := EncodeFullGroup(ret, charArray3, charArray4, b, done);
        done := done + 3;
        i := 0;
      }
    }
    if i != 0 {
      assert charArray3[..i] == b[done..];
      ret := EncodeFinalGroup(ret, charArray3, charArray4, i);
    } else {
      assert b[done..] == [];
    }
    EncodeSplit(b, done);
  }

  // ---------------------------------------------------------------------------------------------
  // Decoding

  /** For an alphabet character, the decoder's lookup of its byte gives its 6-bit value. */
  lemma LookupValue(c: char)
    requires IsBase64(c)
    ensures c as int < 256 && TableLookup(CharToByte(c)) == Value(c)
  {
    CharByteChar(c);
  }

  /** The same for the bytes `a` of the alphabet characters `t`. */
  lemma LookupValues(t: string, a: seq<Byte>, l: seq<Byte>)
    requires AllBase64(t) && |t| <= |a| && |t| <= |l|
    requires forall k :: 0 <= k < |t| ==> a[k] == CharToByte(t[k]) && l[k] == TableLookup(a[k])
    ensures forall k :: 0 <= k < |t| ==> l[k] == Value(t[k])
  {
    forall k | 0 <= k < |t| ensures l[k] == Value(t[k]) {
      LookupValue(t[k]);
    }
  }

  /**
    * `for (i = 0; i < 4; i++) char_array_4[i] = base64_chars.find(char_array_4[i]);`:
    * every byte is replaced by its position in the alphabet, narrowed to a `BYTE`, which is
    * its value by Table 1 or `0xff`.
    */
  method LookupSlots(charArray4: array<Byte>)
    requires charArray4.Length == 4
    modifies charArray4
    ensures forall k :: 0 <= k < 4 ==> charArray4[k] == TableLookup(old(charArray4[k]))
  {
    var i := 0;
    while i < 4
      invariant 0 <= i <= 4
      invariant forall k :: 0 <= k < i ==> charArray4[k] == TableLookup(old(charArray4[k]))
      invariant forall k :: i <= k < 4 ==> charArray4[k] == old(charArray4[k])
    {
      LookupIsTable(charArray4[i]);
      charArray4[i] := Lookup(charArray4[i]);
      i := i + 1;
    }
  }

  /** The shift-and-add expressions of the decoder join four 6-bit values into three bytes. */
  lemma DecodeBitsAreOctets(a0: Byte, a1: Byte, a2: Byte, a3: Byte)
    requires a0 < 64 && a1 < 64 && a2 < 64 && a3 < 64
    ensures Octets(a0, a1, a2, a3) ==
      [(a0 << 2) + ((a1 & 0x30) >> 4), ((a1 & 0xf) << 4) + ((a2 & 0x3c) >> 2), ((a2 & 0x3) << 6) + a3]
  {
  }

  /** Joins the four values of `char_array_4` into the three bytes of `char_array_3`. */
  method JoinGroup(charArray4: array<Byte>, charArray3: array<Byte>)
    requires charArray4.Length == 4 && charArray3.Length == 3
    modifies charArray3
    ensures charArray3[..] ==
      [(charArray4[0] << 2) + ((charArray4[1] & 0x30) >> 4),
       ((charArray4[1] & 0xf) << 4) + ((charArray4[2] & 0x3c) >> 2),
       ((charArray4[2] & 0x3) << 6) + charArray4[3]]
  {
    charArray3[0] := (charArray4[0] << 2) + ((charArray4[1] & 0x30) >> 4);
    charArray3[1] := ((charArray4[1] & 0xf) << 4) + ((charArray4[2] & 0x3c) >> 2);
    charArray3[2] := ((charArray4[2] & 0x3) << 6) + charArray4[3];
  }

  /** `for (i = 0; i < count; i++) ret.push_back(char_array_3[i]);` */
  method AppendBytes(prefix: seq<Byte>, charArray3: array<Byte>, count: nat) returns (ret: seq<Byte>)
    requires count <= charArray3.Length
    ensures ret == prefix + charArray3[..count]
  {
    ret := prefix;
    var i := 0;
    while i < count
      invariant 0 <= i <= count
      invariant ret == prefix + charArray3[..i]
    {
      assert charArray3[..i + 1] == charArray3[..i] + [charArray3[i]];
      ret := ret + [charArray3[i]];
      i := i + 1;
    }
  }

  /** The decoder's expressions on the values of a group of four alphabet characters give its bytes. */
  lemma {:induction false} JoinedGroup(q: string, v: seq<Byte>, c: seq<Byte>)
    requires |q| == 4 && AllBase64(q) && |v| == 4
    requires forall k :: 0 <= k < 4 ==> v[k] == Value(q[k])
    requires c == [(v[0] << 2) + ((v[1] & 0x30) >> 4),
                   ((v[1] & 0xf) << 4) + ((v[2] & 0x3c) >> 2),
                   ((v[2] & 0x3) << 6) + v[3]]
    ensures c == DecodeGroups(q)
  {
    assert q[..0] == [];
    DecodeBitsAreOctets(v[0], v[1], v[2], v[3]);
  }

  /** One more full group of four characters adds its three bytes. */
  lemma {:induction false} DecodeGroupsStep(s: string, d: nat)
    requires d + 4 <= |s| && d % 4 == 0
    requires forall k :: 0 <= k < d + 4 ==> IsBase64(s[k])
    ensures (d + 4) % 4 == 0 && AllBase64(s[..d]) && AllBase64(s[d..d + 4]) && AllBase64(s[..d + 4])
    ensures DecodeGroups(s[..d + 4]) == DecodeGroups(s[..d]) + DecodeGroups(s[d..d + 4])
  {
    var g, q := s[..d], s[d..d + 4];
    assert g + q == s[..d + 4];
    DecodeGroupsSnoc(g, q);
    assert q[..0] == [];
  }

  /**
    * The `if (i == 4)` block of `base64_decode`: the four alphabet characters `q` held in
    * `char_array_4` add their three bytes.
    */
  method DecodeFullGroup(prefix: seq<Byte>, charArray4: array<Byte>, charArray3: array<Byte>, ghost q: string)
      returns (ret: seq<Byte>)
    requires charArray4.Length == 4 && charArray3.Length == 3
    requires |q| == 4 && AllBase64(q)
    requires forall k :: 0 <= k < 4 ==> charArray4[k] == CharToByte(q[k])
    modifies charArray4, charArray3
    ensures ret == prefix + DecodeGroups(q)
  {
    ghost var a := charArray4[..];
    LookupSlots(charArray4);
    ghost var v := charArray4[..];
    LookupValues(q, a, v);
    JoinGroup(charArray4, charArray3);
    JoinedGroup(q, v, charArray3[..]);
    ret := AppendBytes(prefix, charArray3, 3);
    assert charArray3[..3] == charArray3[..];
  }

  /**
    * The full group `s[d..d + 4]` of accepted characters, held in `char_array_4`, extends the
    * decoding of the groups before it.
    */
  method DecodeNextGroup(prefix: seq<Byte>, charArray4: array<Byte>, charArray3: array<Byte>,
                         ghost s: string, ghost d: nat)
      returns (ret: seq<Byte>)
    requires charArray4.Length == 4 && charArray3.Length == 3
    requires d % 4 == 0 && d + 4 <= StopIndex(s)
    requires forall k :: 0 <= k < 4 ==> charArray4[k] == CharToByte(s[d + k])
    requires AllBase64(s[..d]) && prefix == DecodeGroups(s[..d])
    modifies charArray4, charArray3
    ensures (d + 4) % 4 == 0 && AllBase64(s[..d + 4]) && ret == DecodeGroups(s[..d + 4])
  {
    DecodeGroupsStep(s, d);
    ghost var q := s[d..d + 4];
    assert forall k :: 0 <= k < 4 ==> q[k] == s[d + k];
    ret := DecodeFullGroup(prefix, charArray4, charArray3, q);
  }

  /**
    * The first `|t| - 1` bytes the decoder's expressions give for a final group `t` of one to
    * three characters: byte k reads only the values k and k + 1, so the values in the unused
    * slots do not matter.
    */
  lemma {:induction false} DecodeTailFromSlots(t: string, a: seq<Byte>, c: seq<Byte>)
    requires 0 < |t| < 4 && AllBase64(t) && |a| == 4
    requires forall k :: 0 <= k < |t| ==> a[k] == Value(t[k])
    requires c == [(a[0] << 2) + ((a[1] & 0x30) >> 4),
                   ((a[1] & 0xf) << 4) + ((a[2] & 0x3c) >> 2),
                   ((a[2] & 0x3) << 6) + a[3]]
    ensures c[..|t| - 1] == DecodeTail(t)
  {
    if |t| == 2 {
      DecodeBitsAreOctets(a[0], a[1], 0, 0);
    } else if |t| == 3 {
      DecodeBitsAreOctets(a[0], a[1], a[2], 0);
    }
  }

  /**
    * The `if (i)` block of `base64_decode`: the `count` characters `t` left in `char_array_4`
    * are completed with zero bytes, looked up, and give `count - 1` bytes.
    */
  method DecodeFinalGroup(prefix: seq<Byte>, charArray4: array<Byte>, charArray3: array<Byte>, count: nat,
                          ghost t: string)
      returns (ret: seq<Byte>)
    requires charArray4.Length == 4 && charArray3.Length == 3
    requires 0 < count < 4 && |t| == count && AllBase64(t)
    requires forall k :: 0 <= k < count ==> charArray4[k] == CharToByte(t[k])
    modifies charArray4, charArray3
    ensures ret == prefix + DecodeTail(t)
  {
    var i := count;
    var j := i;
    while j < 4
      invariant i <= j <= 4
      invariant forall k :: 0 <= k < i ==> charArray4[k] == CharToByte(t[k])
    {
      charArray4[j] := 0;
      j := j + 1;
    }
    ghost var a := charArray4[..];
    LookupSlots(charArray4);
    LookupValues(t, a, charArray4[..]);
    JoinGroup(charArray4, charArray3);
    DecodeTailFromSlots(t, charArray4[..], charArray3[..]);
    ret := AppendBytes(prefix, charArray3, i - 1);
  }

  /**
    * When the first `p` characters of `s` are accepted and the next is not, and `d` of them
    * form full groups, the decoding of `s` is made of those groups and the rest `s[d..p]`.
    */
  lemma {:induction false} DecodeAccepted(s: string, d: nat, p: nat)
    requires d <= p <= |s| && d % 4 == 0 && p - d < 4
    requires forall k :: 0 <= k < p ==> Accepted(s[k])
    requires p < |s| ==> !Accepted(s[p])
    ensures AllBase64(s[..d]) && AllBase64(s[d..p])
    ensures Decode(s) == DecodeGroups(s[..d]) + DecodeTail(s[d..p])
  {
    StopIndexAt(s, p);
    SplitAt(s[..p], d);
    assert s[..p][..d] == s[..d] && s[..p][d..] == s[d..p];
    DecodeSplit(s, s[..d], s[d..p]);
  }

  /**
    * After the loop of `base64_decode` stops at position `p`, the first non-accepted character,
    * the `i` characters read since the last full group complete the decoding of `s`.
    */
  method DecodeRest(prefix: seq<Byte>, charArray4: array<Byte>, charArray3: array<Byte>, i: nat,
                    ghost s: string, ghost d: nat)
      returns (ret: seq<Byte>)
    requires charArray4.Length == 4 && charArray3.Length == 3
    requires d % 4 == 0 && i < 4 && d + i == StopIndex(s)
    requires forall k :: 0 <= k < i ==> charArray4[k] == CharToByte(s[d + k])
    requires AllBase64(s[..d]) && prefix == DecodeGroups(s[..d])
    modifies charArray4, charArray3
    ensures ret == Decode(s)
  {
    DecodeAccepted(s, d, d + i);
    if i != 0 {
      ghost var t := s[d..d + i];
      assert forall k :: 0 <= k < i ==> t[k] == s[d + k];
      ret := DecodeFinalGroup(prefix, charArray4, charArray3, i, t);
    } else {
      ret := prefix;
    }
  }

  /** `base64_decode(encoded_string)`: the bytes of the text, read up to its first non-alphabet character. */
  method Base64Decode(encodedString: string) returns (ret: seq<Byte>)
    ensures ret == Decode(encodedString)
  {
    ghost var s := encodedString;
    var inLen := |encodedString|;  // `in_len--` counts the characters still to read
    var i := 0;
    var pos := 0;                  // `in_`, the position in the text
    var charArray4 := new Byte[4];
    var charArray3 := new Byte[3];
    ret := [];
    ghost var done := 0;           // the characters of the full groups decoded so far
    while inLen != 0 && encodedString[pos] != '=' && IsBase64(encodedString[pos])
      invariant 0 <= inLen && pos + inLen == |s| && pos == done + i && 0 <= i < 4
      invariant pos <= StopIndex(s)
      invariant forall k :: 0 <= k < i ==> charArray4[k] == CharToByte(s[done + k])
      invariant done % 4 == 0 && AllBase64(s[..done]) && ret == DecodeGroups(s[..done])
    {
      inLen := inLen - 1;
      charArray4[i] := CharToByte(encodedString[pos]);
      i := i + 1;
      pos := pos + 1;
      if i == 4 {
        ret := DecodeNextGroup(ret, charArray4, charArray3, s, done);
        done := done + 4;
        i := 0;
      }
    }
    ret := DecodeRest(ret, charArray4, charArray3, i, s, done);
  }
}
