/** What the encoding and decoding of RFC 4648 section 4 promise: lengths, alphabet, padding, where decoding stops, and the round trip. */
module Base64Properties {
  import opened StdString
  import opened Bytes
  import opened Base64Alphabet
  import opened Base64Spec

  lemma {:induction false} EncodeGroupsLength(b: seq<Byte>)
    requires |b| % 3 == 0
    ensures 3 * |EncodeGroups(b)| == 4 * |b|
    ensures |EncodeGroups(b)| % 4 == 0
    decreases |b|
  {
    if b != [] {
      EncodeGroupsLength(b[..|b| - 3]);
    }
  }

  lemma GroupCount(n: nat)
    ensures (n + 2) / 3 == n / 3 + (if n % 3 == 0 then 0 else 1)
  {
  }

  /** Encoding n bytes yields 4 * ceil(n / 3) characters; only the empty input encodes to the empty text. */
  lemma {:induction false} EncodeLength(b: seq<Byte>)
    ensures |Encode(b)| == 4 * ((|b| + 2) / 3)
    ensures Encode(b) == [] <==> b == []
  {
    var n := |b|;
    var k := FullLength(n);
    EncodeGroupsLength(b[..k]);
    TailCharsIsBase64(b[k..]);
    GroupCount(n);
    assert k == 3 * (n / 3);
    assert |EncodeGroups(b[..k])| == 4 * (n / 3);
  }

  lemma {:induction false} QuantumIsBase64(b0: Byte, b1: Byte, b2: Byte)
    ensures |Quantum(b0, b1, b2)| == 4 && AllBase64(Quantum(b0, b1, b2))
  {
    var s := Sextets(b0, b1, b2);
    forall i | 0 <= i < 4
      ensures IsBase64(Quantum(b0, b1, b2)[i])
    {
      TableCharIsBase64(s[i] as int);
    }
  }

  lemma AllBase64Concat(x: string, y: string)
    requires AllBase64(x) && AllBase64(y)
    ensures AllBase64(x + y)
  {
  }

  lemma {:induction false} EncodeGroupsIsBase64(b: seq<Byte>)
    requires |b| % 3 == 0
    ensures AllBase64(EncodeGroups(b))
    decreases |b|
  {
    if b != [] {
      var k := |b| - 3;
      assert |b[..k]| % 3 == 0;
      EncodeGroupsIsBase64(b[..k]);
      QuantumIsBase64(b[k], b[k + 1], b[k + 2]);
      AllBase64Concat(EncodeGroups(b[..k]), Quantum(b[k], b[k + 1], b[k + 2]));
    }
  }

  lemma {:induction false} TailCharsIsBase64(t: seq<Byte>)
    requires |t| < 3
    ensures |TailChars(t)| == if |t| == 0 then 0 else |t| + 1
    ensures AllBase64(TailChars(t))
  {
    if |t| > 0 {
      QuantumIsBase64(t[0], if |t| == 2 then t[1] else 0, 0);
    }
  }

  /** The number of `=` signs at the end of the encoding of n bytes. */
  function PadLength(n: nat): (p: nat)
    ensures p < 3
  {
    if n % 3 == 0 then 0 else 3 - n % 3
  }

  /**
    * Every character of an encoding is an alphabet character or `=`; the `=` signs form one
    * trailing run of length 0, 1 or 2, and the run is empty exactly when n is a multiple of 3.
    */
  lemma {:induction false} EncodePadding(b: seq<Byte>)
    ensures var r, p := Encode(b), PadLength(|b|);
            p <= |r| &&
            (forall i :: 0 <= i < |r| - p ==> IsBase64(r[i])) &&
            (forall i :: |r| - p <= i < |r| ==> r[i] == '=')
  {
    var k := FullLength(|b|);
    var t := b[k..];
    EncodeGroupsIsBase64(b[..k]);
    EncodeGroupsLength(b[..k]);
    TailCharsIsBase64(t);
  }

  /** Corollary: every encoded character is `=` or an alphabet character. */
  lemma {:induction false} EncodeAlphabet(b: seq<Byte>)
    ensures forall c :: c in Encode(b) ==> c == '=' || c in Base64Chars
  {
    EncodePadding(b);
    forall c | c in Encode(b)
      ensures c == '=' || c in Base64Chars
    {
      IsBase64Exact(c);
    }
  }

  /** The characters before any padding: those the decoder accepts. */
  function EncodeBody(b: seq<Byte>): (r: string)
  {
    var k := FullLength(|b|);
    EncodeGroups(b[..k]) + TailChars(b[k..])
  }

  lemma {:induction false} StopIndexAt(s: string, k: nat)
    requires k <= |s|
    requires forall i :: 0 <= i < k ==> Accepted(s[i])
    requires k < |s| ==> !Accepted(s[k])
    ensures StopIndex(s) == k
  {
  }

  /** Decoding an encoding reads all of its characters up to the padding. */
  lemma {:induction false} StopIndexOfEncode(b: seq<Byte>)
    ensures StopIndex(Encode(b)) == |EncodeBody(b)|
    ensures Encode(b)[..|EncodeBody(b)|] == EncodeBody(b)
  {
    var k := FullLength(|b|);
    var t := b[k..];
    var r := Encode(b);
    var body := EncodeBody(b);
    EncodeGroupsIsBase64(b[..k]);
    TailCharsIsBase64(t);
    assert r == body + (if |t| == 0 then "" else if |t| == 1 then "==" else "=");
    StopIndexAt(r, |body|);
  }

  lemma {:induction false} CharsValues(s: seq<Byte>)
    requires forall k :: 0 <= k < |s| ==> s[k] < 64
    ensures AllBase64(Chars(s))
    ensures forall k :: 0 <= k < |s| ==> Value(Chars(s)[k]) == s[k]
  {
    forall k | 0 <= k < |s|
      ensures IsBase64(Chars(s)[k]) && Value(Chars(s)[k]) == s[k]
    {
      TableCharIsBase64(s[k] as int);
    }
  }

  /** Each full group decodes back to its three bytes. */
  lemma {:induction false} DecodeQuantum(b0: Byte, b1: Byte, b2: Byte)
    ensures AllBase64(Quantum(b0, b1, b2))
    ensures var q := Quantum(b0, b1, b2);
            Octets(Value(q[0]), Value(q[1]), Value(q[2]), Value(q[3])) == [b0, b1, b2]
  {
    CharsValues(Sextets(b0, b1, b2));
    OctetsOfSextets(b0, b1, b2);
  }

  lemma {:induction false} DecodeGroupsSnoc(g: string, q: string)
    requires |g| % 4 == 0 && AllBase64(g) && |q| == 4 && AllBase64(q)
    ensures |g + q| % 4 == 0 && AllBase64(g + q)
    ensures DecodeGroups(g + q) == DecodeGroups(g) + Octets(Value(q[0]), Value(q[1]), Value(q[2]), Value(q[3]))
  {
    var e := g + q;
    assert e[..|g|] == g;
    assert e[|g|] == q[0] && e[|g| + 1] == q[1] && e[|g| + 2] == q[2] && e[|g| + 3] == q[3];
  }

  lemma SplitAt<T>(s: seq<T>, k: nat)
    requires k <= |s|
    ensures s[..k] + s[k..] == s
  {
  }

  lemma SplitLastThree(b: seq<Byte>)
    requires |b| >= 3
    ensures b == b[..|b| - 3] + [b[|b| - 3], b[|b| - 2], b[|b| - 1]]
  {
  }

  lemma {:induction false} DecodeEncodeGroups(b: seq<Byte>)
    requires |b| % 3 == 0
    ensures |EncodeGroups(b)| % 4 == 0 && AllBase64(EncodeGroups(b))
    ensures DecodeGroups(EncodeGroups(b)) == b
    decreases |b|
  {
    EncodeGroupsLength(b);
    EncodeGroupsIsBase64(b);
    if b != [] {
      var k := |b| - 3;
      assert |b[..k]| % 3 == 0;
      var g := EncodeGroups(b[..k]);
      var q := Quantum(b[k], b[k + 1], b[k + 2]);
      DecodeEncodeGroups(b[..k]);
      DecodeQuantum(b[k], b[k + 1], b[k + 2]);
      DecodeGroupsSnoc(g, q);
      assert EncodeGroups(b) == g + q;
      assert Octets(Value(q[0]), Value(q[1]), Value(q[2]), Value(q[3])) == [b[k], b[k + 1], b[k + 2]];
      assert DecodeGroups(g + q) == b[..k] + [b[k], b[k + 1], b[k + 2]];
      SplitLastThree(b);
    }
  }

  /** A final group of one or two bytes decodes back from its two or three characters. */
  lemma {:induction false} DecodeEncodeTail(t: seq<Byte>)
    requires |t| < 3
    ensures |TailChars(t)| < 4 && AllBase64(TailChars(t))
    ensures DecodeTail(TailChars(t)) == t
  {
    TailCharsIsBase64(t);
    if |t| > 0 {
      var b1: Byte := if |t| == 2 then t[1] else 0;
      var s := Sextets(t[0], b1, 0);
      CharsValues(s);
      OctetsOfSextets(t[0], b1, 0);
      if |t| == 1 {
        assert Octets(s[0], s[1], 0, 0)[..1] == Octets(s[0], s[1], s[2], s[3])[..1];
      } else {
        assert Octets(s[0], s[1], s[2], 0)[..2] == Octets(s[0], s[1], s[2], s[3])[..2];
      }
    }
  }

  /** Decoding a text whose accepted prefix is full groups `g` followed by a short group `r`. */
  lemma {:induction false} DecodeSplit(s: string, g: string, r: string)
    requires |g| % 4 == 0 && AllBase64(g) && |r| < 4 && AllBase64(r)
    requires StopIndex(s) == |g + r| && s[..|g + r|] == g + r
    ensures Decode(s) == DecodeGroups(g) + DecodeTail(r)
  {
    var t := g + r;
    assert |t| - |t| % 4 == |g|;
    assert t[..|g|] == g;
    assert t[|g|..] == r;
  }

  /** Decoding an encoding decodes its full groups and its final quantum separately. */
  lemma {:induction false} DecodeOfEncode(b: seq<Byte>)
    ensures var k := FullLength(|b|);
            |EncodeGroups(b[..k])| % 4 == 0 && AllBase64(EncodeGroups(b[..k])) &&
            |TailChars(b[k..])| < 4 && AllBase64(TailChars(b[k..])) &&
            Decode(Encode(b)) == DecodeGroups(EncodeGroups(b[..k])) + DecodeTail(TailChars(b[k..]))
  {
    var k := FullLength(|b|);
    var g := EncodeGroups(b[..k]);
    var r := TailChars(b[k..]);
    StopIndexOfEncode(b);
    EncodeGroupsLength(b[..k]);
    EncodeGroupsIsBase64(b[..k]);
    TailCharsIsBase64(b[k..]);
    assert EncodeBody(b) == g + r;
    DecodeSplit(Encode(b), g, r);
  }

  /** Round trip: decoding the encoding of any byte sequence gives that sequence back. */
  lemma {:induction false} RoundTrip(b: seq<Byte>)
    ensures Decode(Encode(b)) == b
  {
    var k := FullLength(|b|);
    var front, back := b[..k], b[k..];
    DecodeOfEncode(b);
    DecodeEncodeGroups(front);
    DecodeEncodeTail(back);
    calc {
      Decode(Encode(b));
      DecodeGroups(EncodeGroups(front)) + DecodeTail(TailChars(back));
      front + back;
      { SplitAt(b, k); }
      b;
    }
  }

  /** Decoding reads only the accepted prefix: the first `=` or other character outside the alphabet ends it. */
  lemma {:induction false} DecodeReadsPrefix(s: string)
    ensures Decode(s) == Decode(s[..StopIndex(s)])
  {
    var k := StopIndex(s);
    StopIndexAt(s[..k], k);
    assert s[..k][..k] == s[..k];
  }

  lemma {:induction false} StopIndexAppend(s: string, u: string)
    requires StopIndex(s) < |s|
    ensures StopIndex(s + u) == StopIndex(s)
  {
    var k := StopIndex(s);
    assert (s + u)[..k] == s[..k];
    assert (s + u)[k] == s[k];
    StopIndexAt(s + u, k);
  }

  lemma {:induction false} DecodeSamePrefix(s: string, s': string)
    requires StopIndex(s) == StopIndex(s') && s[..StopIndex(s)] == s'[..StopIndex(s')]
    ensures Decode(s) == Decode(s')
  {
  }

  /** Whatever follows the character that stopped decoding is ignored. */
  lemma {:induction false} DecodeIgnoresRest(s: string, u: string)
    requires StopIndex(s) < |s|
    ensures Decode(s + u) == Decode(s)
  {
    var su := s + u;
    StopIndexAppend(s, u);
    var k := StopIndex(s);
    assert su[..k] == s[..k];
    DecodeSamePrefix(su, s);
  }

  lemma {:induction false} DecodeGroupsLength(t: string)
    requires |t| % 4 == 0 && AllBase64(t)
    ensures |DecodeGroups(t)| == |t| / 4 * 3
    decreases |t|
  {
    if t != [] {
      DecodeGroupsLength(t[..|t| - 4]);
    }
  }

  /** A final group of k characters gives k - 1 bytes, and a single character gives none. */
  lemma DecodeTailLength(r: string)
    requires |r| < 4 && AllBase64(r)
    ensures |DecodeTail(r)| == if |r| == 0 then 0 else |r| - 1
  {
  }

  /** With k accepted characters the decoder yields 3 * (k / 4) bytes plus k % 4 - 1 for a final partial group. */
  lemma {:induction false} DecodeLength(s: string)
    ensures var k := StopIndex(s);
            |Decode(s)| == 3 * (k / 4) + (if k % 4 == 0 then 0 else k % 4 - 1)
    ensures s == [] ==> Decode(s) == []
  {
    var k := StopIndex(s);
    var t := s[..k];
    var g := k - k % 4;
    assert AllBase64(t[..g]) && AllBase64(t[g..]);
    DecodeGroupsLength(t[..g]);
    DecodeTailLength(t[g..]);
    assert g / 4 * 3 == 3 * (k / 4);
  }
}
