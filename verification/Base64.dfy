/** Base64 encoding and decoding with the standard alphabet and `=` padding
    (section 4 of RFC 4648), as `Base64Code::encode` and `Base64Code::decode` do it.

    A `std::string` is a sequence of bytes (`bv8`). The C++ code computes on `int`
    and stores the result in an `unsigned char`, i.e. truncates it modulo 256;
    `bv8` arithmetic does exactly that truncation, so the bit formulas are written
    as in the source. */
module Base64 {
  import opened StdString

  /** `Base64Code::baseString`, as the three literals of the source. */
  const BaseChars: string :=
    "ABCDEFGHIJKLMNOPQRSTUVWXYZ" +
    "abcdefghijklmnopqrstuvwxyz" +
    "0123456789+/"

  /** The padding character `=`. */
  const Pad: bv8 := 0x3D

  /** The spelling of the alphabet: A-Z, a-z, 0-9, then `+` and `/`. */
  lemma BaseCharsLayout()
    ensures |BaseChars| == 64
    ensures forall i :: 0 <= i < 26 ==> BaseChars[i] as int == 'A' as int + i
    ensures forall i :: 26 <= i < 52 ==> BaseChars[i] as int == 'a' as int + (i - 26)
    ensures forall i :: 52 <= i < 62 ==> BaseChars[i] as int == '0' as int + (i - 52)
    ensures BaseChars[62] == '+' && BaseChars[63] == '/'
  {
  }

  /** `baseString[i]` for a 6-bit index `i`, by the ranges of the alphabet
      (CharIsBaseChars shows it is the literal's character). */
  function Char(i: bv8): (c: bv8)
    requires i < 64
    ensures Index(c) == i && c != Pad
  {
    if i < 26 then 0x41 + i
    else if i < 52 then 0x61 + (i - 26)
    else if i < 62 then 0x30 + (i - 52)
    else if i == 62 then 0x2B
    else 0x2F
  }

  /** `baseString.find(c)` stored in an `unsigned char`: the 6-bit index of `c`,
      or 255, which is `npos` truncated, for a character outside the alphabet
      such as `=` (IndexIsFind shows it is that truncated `find`). */
  function Index(c: bv8): (i: bv8)
    ensures i < 64 || i == 255
    ensures c == Pad ==> i == 255
  {
    if 0x41 <= c <= 0x5A then c - 0x41
    else if 0x61 <= c <= 0x7A then c - 0x61 + 26
    else if 0x30 <= c <= 0x39 then c - 0x30 + 52
    else if c == 0x2B then 62
    else if c == 0x2F then 63
    else 255
  }

  /** Char reads the source's table. */
  lemma CharIsBaseChars(i: bv8)
    requires i < 64
    ensures |BaseChars| == 64 && Char(i) as int == BaseChars[i as int] as int
  {
    BaseCharsLayout();
  }

  /** Index is a left inverse of Char, and `=` maps to the sentinel 255. */
  lemma IndexChar(i: bv8)
    requires i < 64
    ensures Index(Char(i)) == i && Char(i) != Pad
    ensures Index(Pad) == 255
  {
  }

  /** Char is a right inverse of Index on the alphabet. */
  lemma CharIndex(c: bv8)
    requires Index(c) != 255
    ensures Index(c) < 64 && Char(Index(c)) == c
  {
  }

  lemma BaseCharsDistinct()
    ensures |BaseChars| == 64
    ensures forall i, j :: 0 <= i < 64 && 0 <= j < 64 && BaseChars[i] == BaseChars[j] ==> i == j
  {
    BaseCharsLayout();
  }

  lemma NotInBaseChars(c: bv8)
    requires Index(c) == 255
    ensures c as int as char !in BaseChars
  {
    BaseCharsLayout();
    var x := c as int as char;
    forall j | 0 <= j < 64 ensures BaseChars[j] != x {
      if j < 26 {} else if j < 52 {} else if j < 62 {} else {}
    }
  }

  lemma FindFound(c: bv8)
    requires Index(c) != 255
    ensures |BaseChars| == 64
    ensures Find(BaseChars, c as int as char) == Index(c) as int
  {
    BaseCharsDistinct();
    CharIndex(c);
    CharIsBaseChars(Index(c));
    assert BaseChars[Index(c) as int] == c as int as char;
  }

  lemma FindMissing(c: bv8)
    requires Index(c) == 255
    ensures Find(BaseChars, c as int as char) == NPOS
  {
    BaseCharsLayout();
    NotInBaseChars(c);
  }

  /** Index(c) is what `baseString.find(c)` leaves in an `unsigned char`: the
      position of c in the table, or npos truncated to 8 bits. */
  lemma IndexIsFind(c: bv8)
    ensures |BaseChars| == 64
    ensures Index(c) as int == Find(BaseChars, c as int as char) % 256
  {
    var k := Find(BaseChars, c as int as char);
    var i := Index(c) as int;
    if Index(c) != 255 {
      FindFound(c);
      assert k == i;
      assert 0 <= i < 64;
      assert k % 256 == i;
    } else {
      FindMissing(c);
      assert NPOS % 256 == 255;
      assert i == 255;
    }
  }

  /** The 24 bits of three bytes, most significant first. */
  function Bits8x3(b0: bv8, b1: bv8, b2: bv8): bv24 {
    (b0 as bv24 << 16) | (b1 as bv24 << 8) | b2 as bv24
  }

  /** The 24 bits of four 6-bit groups, most significant first. */
  function Bits6x4(q0: bv8, q1: bv8, q2: bv8, q3: bv8): bv24 {
    ((q0 & 63) as bv24 << 18) | ((q1 & 63) as bv24 << 12) | ((q2 & 63) as bv24 << 6) | (q3 & 63) as bv24
  }

  /** `byte4` computed from `byte3` in `encode`. */
  function Sextets(b0: bv8, b1: bv8, b2: bv8): (q: seq<bv8>)
    ensures |q| == 4
  {
    [ (b0 & 0xFC) >> 2,
      ((b0 & 0x03) << 4) + ((b1 & 0xF0) >> 4),
      ((b1 & 0x0F) << 2) + ((b2 & 0xC0) >> 6),
      b2 & 0x3F ]
  }

  /** `byte3` computed from `byte4` in `decode`: each byte from two neighbouring indices. */
  function Octets(i0: bv8, i1: bv8, i2: bv8, i3: bv8): (x: seq<bv8>)
    ensures |x| == 3
  {
    [Octet0(i0, i1), Octet1(i1, i2), Octet2(i2, i3)]
  }

  /** The first decoded byte: the six bits of i0, then the top two bits of i1's six. */
  function Octet0(i0: bv8, i1: bv8): (b: bv8)
    ensures b >> 2 == i0 & 63 && b & 3 == (i1 >> 4) & 3
  {
    (i0 << 2) + ((i1 & 0x30) >> 4)
  }

  /** The second decoded byte: the low four bits of i1, then the middle four of i2's six. */
  function Octet1(i1: bv8, i2: bv8): (b: bv8)
    ensures b >> 4 == i1 & 15 && b & 15 == (i2 >> 2) & 15
  {
    ((i1 & 0x0F) << 4) + ((i2 & 0x3C) >> 2)
  }

  /** The third decoded byte: the low two bits of i2, then the six bits of a 6-bit i3. */
  function Octet2(i2: bv8, i3: bv8): (b: bv8)
    ensures i3 < 64 ==> b >> 6 == i2 & 3 && b & 63 == i3
  {
    ((i2 & 0x03) << 6) + i3
  }

  /** The four indices are 6-bit values holding the same 24 bits as the three bytes. */
  lemma SextetsBits(b0: bv8, b1: bv8, b2: bv8)
    ensures var q := Sextets(b0, b1, b2);
            q[0] < 64 && q[1] < 64 && q[2] < 64 && q[3] < 64 &&
            Bits6x4(q[0], q[1], q[2], q[3]) == Bits8x3(b0, b1, b2)
  {
  }

  /** On 6-bit indices, the bytes of `decode` hold the same 24 bits as the indices. */
  lemma OctetsBits(i0: bv8, i1: bv8, i2: bv8, i3: bv8)
    requires i0 < 64 && i1 < 64 && i2 < 64 && i3 < 64
    ensures var x := Octets(i0, i1, i2, i3);
            Bits8x3(x[0], x[1], x[2]) == Bits6x4(i0, i1, i2, i3)
  {
  }

  /** Octets undoes Sextets. The first byte depends only on the first two indices
      and the second only on the first three, so padding in the last one or two
      positions does not disturb the bytes before it. */
  lemma OctetsSextets(b0: bv8, b1: bv8, b2: bv8, j2: bv8, j3: bv8)
    ensures var q := Sextets(b0, b1, b2);
            Octets(q[0], q[1], q[2], q[3]) == [b0, b1, b2] &&
            Octets(q[0], q[1], q[2], j3)[1] == b1 &&
            Octets(q[0], q[1], j2, j3)[0] == b0
  {
    var q := Sextets(b0, b1, b2);
    FirstByte(b0, b1, q[0], q[1]);
    SecondByte(b0, b1, b2, q[1], q[2]);
    ThirdByte(b1, b2, q[2], q[3]);
  }

  lemma FirstByte(b0: bv8, b1: bv8, q0: bv8, q1: bv8)
    requires q0 == (b0 & 0xFC) >> 2 && q1 == ((b0 & 0x03) << 4) + ((b1 & 0xF0) >> 4)
    ensures Octet0(q0, q1) == b0
  {
  }

  lemma SecondByte(b0: bv8, b1: bv8, b2: bv8, q1: bv8, q2: bv8)
    requires q1 == ((b0 & 0x03) << 4) + ((b1 & 0xF0) >> 4)
    requires q2 == ((b1 & 0x0F) << 2) + ((b2 & 0xC0) >> 6)
    ensures Octet1(q1, q2) == b1
  {
  }

  lemma ThirdByte(b1: bv8, b2: bv8, q2: bv8, q3: bv8)
    requires q2 == ((b1 & 0x0F) << 2) + ((b2 & 0xC0) >> 6) && q3 == b2 & 0x3F
    ensures Octet2(q2, q3) == b2
  {
  }

  /** The four characters of one full 3-byte group. */
  function EncodeGroup(g: seq<bv8>): (r: seq<bv8>)
    requires |g| == 3
    ensures |r| == 4
  {
    var q := Sextets(g[0], g[1], g[2]);
    [Char(q[0]), Char(q[1]), Char(q[2]), Char(q[3])]
  }

  /** The encoding of a whole number of 3-byte groups, group after group. */
  function EncodeGroups(s: seq<bv8>): (r: seq<bv8>)
    requires |s| % 3 == 0
    ensures |r| == 4 * (|s| / 3)
  {
    if s == [] then [] else EncodeGroup(s[..3]) + EncodeGroups(s[3..])
  }

  /** The encoding of a remainder of 1 or 2 bytes: zero-filled to three bytes,
      then |t| + 1 characters of the alphabet and 3 - |t| padding characters. */
  function EncodeTail(t: seq<bv8>): (r: seq<bv8>)
    requires |t| < 3
    ensures |r| == if |t| == 0 then 0 else 4
  {
    if |t| == 0 then []
    else if |t| == 1 then
      var q := Sextets(t[0], 0, 0);
      [Char(q[0]), Char(q[1]), Pad, Pad]
    else
      var q := Sextets(t[0], t[1], 0);
      [Char(q[0]), Char(q[1]), Char(q[2]), Pad]
  }

  /** What `Base64Code::encode(s)` returns. */
  function Encoded(s: seq<bv8>): (r: seq<bv8>)
    ensures r == [] <==> s == []
  {
    var full := 3 * (|s| / 3);
    EncodeGroups(s[..full]) + EncodeTail(s[full..])
  }

  /** The bytes one group of four characters decodes to: byte3[0] alone when the
      third index is the sentinel 255 (`=`), byte3[0..1] when the fourth is, all
      three otherwise. */
  function DecodeGroup(g: seq<bv8>): (r: seq<bv8>)
    requires |g| == 4
    ensures |r| == if Index(g[2]) == 255 then 1 else if Index(g[3]) == 255 then 2 else 3
  {
    var x := Octets(Index(g[0]), Index(g[1]), Index(g[2]), Index(g[3]));
    if Index(g[2]) == 255 then [x[0]]
    else if Index(g[3]) == 255 then [x[0], x[1]]
    else x
  }

  /** What `Base64Code::decode(s)` returns for an input whose length is a
      multiple of 4 (DecodedLength bounds its length). */
  function Decoded(s: seq<bv8>): (r: seq<bv8>)
    requires |s| % 4 == 0
    ensures r == [] <==> s == []
  {
    if s == [] then [] else DecodeGroup(s[..4]) + Decoded(s[4..])
  }

  // ---------------------------------------------------------------------------
  // Properties of the encoding

  /** The output has 4 characters per started group of 3 bytes: 4 * ceil(n / 3);
      in particular the empty string encodes to the empty string. */
  lemma EncodedLength(s: seq<bv8>)
    ensures |Encoded(s)| == 4 * (|s| / 3) + (if |s| % 3 == 0 then 0 else 4)
    ensures |Encoded(s)| == 4 * ((|s| + 2) / 3)
    ensures s == [] ==> Encoded(s) == []
  {
  }

  /** Encoding whole groups works group by group. */
  lemma {:induction false} EncodeGroupsAppend(s: seq<bv8>, t: seq<bv8>)
    requires |s| % 3 == 0 && |t| % 3 == 0
    ensures EncodeGroups(s + t) == EncodeGroups(s) + EncodeGroups(t)
    decreases |s|
  {
    if s == [] {
      assert s + t == t;
    } else {
      assert (s + t)[..3] == s[..3];
      assert (s + t)[3..] == s[3..] + t;
      EncodeGroupsAppend(s[3..], t);
    }
  }

  /** Appending one group of 3 bytes appends its four characters. */
  lemma EncodeGroupsSnoc(s: seq<bv8>, g: seq<bv8>)
    requires |s| % 3 == 0 && |g| == 3
    ensures EncodeGroups(s + g) == EncodeGroups(s) + EncodeGroup(g)
  {
    EncodeGroupsAppend(s, g);
    assert g[..3] == g && g[3..] == [];
  }

  /** A slice lying wholly in the second part of a concatenation. */
  lemma SliceAfter<T>(a: seq<T>, b: seq<T>, i: nat, j: nat)
    requires |a| <= i <= j <= |a| + |b|
    ensures (a + b)[i..j] == b[i - |a|..j - |a|]
  {
  }

  /** Group g of the input (g below n / 3) becomes characters 4g .. 4g+3 of the output. */
  lemma {:induction false} EncodeGroupsAt(s: seq<bv8>, g: nat)
    requires |s| % 3 == 0 && g < |s| / 3
    ensures EncodeGroups(s)[4 * g .. 4 * g + 4] == EncodeGroup(s[3 * g .. 3 * g + 3])
  {
    if g > 0 {
      var rest := s[3..];
      EncodeGroupsAt(rest, g - 1);
      SliceAfter(EncodeGroup(s[..3]), EncodeGroups(rest), 4 * g, 4 * g + 4);
      SliceAfter(s[..3], rest, 3 * g, 3 * g + 3);
      assert s[..3] + rest == s;
    }
  }

  /** Each full group b0 b1 b2 of the input is emitted as the characters of the
      indices b0>>2, (b0&3)<<4 | b1>>4, (b1&15)<<2 | b2>>6 and b2&63. */
  lemma EncodedGroup(s: seq<bv8>, g: nat)
    requires g < |s| / 3
    ensures 4 * g + 4 <= |Encoded(s)|
    ensures Encoded(s)[4 * g .. 4 * g + 4] ==
              [ Char(s[3 * g] >> 2),
                Char(((s[3 * g] & 3) << 4) | (s[3 * g + 1] >> 4)),
                Char(((s[3 * g + 1] & 15) << 2) | (s[3 * g + 2] >> 6)),
                Char(s[3 * g + 2] & 63) ]
  {
    var full := 3 * (|s| / 3);
    var pre := s[..full];
    EncodeGroupsAt(pre, g);
    assert Encoded(s)[..|EncodeGroups(pre)|] == EncodeGroups(pre);
    assert pre[3 * g .. 3 * g + 3] == [s[3 * g], s[3 * g + 1], s[3 * g + 2]];
    SextetsForm(s[3 * g], s[3 * g + 1], s[3 * g + 2]);
  }

  lemma SextetsForm(b0: bv8, b1: bv8, b2: bv8)
    ensures Sextets(b0, b1, b2) ==
              [ b0 >> 2, ((b0 & 3) << 4) | (b1 >> 4), ((b1 & 15) << 2) | (b2 >> 6), b2 & 63 ]
  {
  }

  /** The four characters of a full group are alphabet characters, never `=`. */
  lemma EncodeGroupAlphabet(g: seq<bv8>)
    requires |g| == 3
    ensures forall k :: 0 <= k < 4 ==> Index(EncodeGroup(g)[k]) < 64
  {
    var q := Sextets(g[0], g[1], g[2]);
    SextetsBits(g[0], g[1], g[2]);
    IndexChar(q[0]);
    IndexChar(q[1]);
    IndexChar(q[2]);
    IndexChar(q[3]);
  }

  /** Characters of full groups are alphabet characters, never `=`. */
  lemma {:induction false} EncodeGroupsAlphabet(s: seq<bv8>)
    requires |s| % 3 == 0
    ensures forall k :: 0 <= k < |EncodeGroups(s)| ==> Index(EncodeGroups(s)[k]) < 64
  {
    if s != [] {
      var e, first, rest := EncodeGroups(s), EncodeGroup(s[..3]), EncodeGroups(s[3..]);
      EncodeGroupsAlphabet(s[3..]);
      EncodeGroupAlphabet(s[..3]);
      forall k | 0 <= k < |e| ensures Index(e[k]) < 64 {
        if k < 4 {
          assert e[k] == first[k];
        } else {
          assert e[k] == rest[k - 4];
        }
      }
    }
  }

  /** Padding: every character of the output is in the alphabet except the last
      3 - n % 3 ones (none when n % 3 == 0), which are `=`; so `=` occurs nowhere else. */
  lemma EncodedPadding(s: seq<bv8>)
    ensures var r, pads := Encoded(s), (if |s| % 3 == 0 then 0 else 3 - |s| % 3);
            pads <= |r| &&
            (forall k :: 0 <= k < |r| - pads ==> Index(r[k]) < 64 && r[k] != Pad) &&
            (forall k :: |r| - pads <= k < |r| ==> r[k] == Pad)
  {
    var full := 3 * (|s| / 3);
    var t := s[full..];
    var head, tail := EncodeGroups(s[..full]), EncodeTail(t);
    var r := Encoded(s);
    assert r == head + tail;
    EncodeGroupsAlphabet(s[..full]);
    IndexChar(0);
    if |t| == 1 {
      var q := Sextets(t[0], 0, 0);
      SextetsBits(t[0], 0, 0);
      IndexChar(q[0]);
      IndexChar(q[1]);
    } else if |t| == 2 {
      var q := Sextets(t[0], t[1], 0);
      SextetsBits(t[0], t[1], 0);
      IndexChar(q[0]);
      IndexChar(q[1]);
      IndexChar(q[2]);
    }
    forall k | 0 <= k < |r| ensures (k < |head| ==> r[k] == head[k]) && (k >= |head| ==> r[k] == tail[k - |head|]) {
    }
  }

  // ---------------------------------------------------------------------------
  // Properties of the decoding and the round trip

  /** Decoding works group by group. */
  lemma {:induction false} DecodedAppend(s: seq<bv8>, t: seq<bv8>)
    requires |s| % 4 == 0 && |t| % 4 == 0
    ensures Decoded(s + t) == Decoded(s) + Decoded(t)
    decreases |s|
  {
    if s == [] {
      assert s + t == t;
    } else {
      assert (s + t)[..4] == s[..4];
      assert (s + t)[4..] == s[4..] + t;
      DecodedAppend(s[4..], t);
    }
  }

  /** Appending one group of 4 characters appends the bytes it decodes to. */
  lemma DecodedSnoc(s: seq<bv8>, g: seq<bv8>)
    requires |s| % 4 == 0 && |g| == 4
    ensures Decoded(s + g) == Decoded(s) + DecodeGroup(g)
  {
    DecodedAppend(s, g);
    assert g[..4] == g && g[4..] == [];
  }

  /** Each group of 4 characters decodes to 1, 2 or 3 bytes, so the output has at
      least len / 4 and at most 3 * (len / 4) bytes. */
  lemma {:induction false} DecodedLength(s: seq<bv8>)
    requires |s| % 4 == 0
    ensures |s| / 4 <= |Decoded(s)| <= 3 * (|s| / 4)
  {
    if s != [] {
      DecodedLength(s[4..]);
    }
  }

  /** A full group decodes to the three bytes it was encoded from. */
  lemma DecodeEncodeGroup(g: seq<bv8>)
    requires |g| == 3
    ensures DecodeGroup(EncodeGroup(g)) == g
  {
    var q := Sextets(g[0], g[1], g[2]);
    SextetsBits(g[0], g[1], g[2]);
    IndexChar(q[0]);
    IndexChar(q[1]);
    IndexChar(q[2]);
    IndexChar(q[3]);
    OctetsSextets(g[0], g[1], g[2], 0, 0);
  }

  /** A padded remainder of 1 or 2 bytes decodes to exactly those bytes. */
  lemma DecodeEncodeTail(t: seq<bv8>)
    requires 1 <= |t| <= 2
    ensures DecodeGroup(EncodeTail(t)) == t
  {
    var b1 := if |t| == 2 then t[1] else 0;
    var q := Sextets(t[0], b1, 0);
    SextetsBits(t[0], b1, 0);
    IndexChar(q[0]);
    IndexChar(q[1]);
    IndexChar(q[2]);
    OctetsSextets(t[0], b1, 0, 255, 255);
  }

  /** Decoding undoes the encoding of whole groups. */
  lemma {:induction false} DecodeEncodeGroups(s: seq<bv8>)
    requires |s| % 3 == 0
    ensures Decoded(EncodeGroups(s)) == s
  {
    if s != [] {
      var first, rest := EncodeGroup(s[..3]), EncodeGroups(s[3..]);
      DecodedAppend(first, rest);
      assert first[..4] == first && first[4..] == [];
      DecodeEncodeGroup(s[..3]);
      DecodeEncodeGroups(s[3..]);
      assert s[..3] + s[3..] == s;
    }
  }

  /** Round trip: decode(encode(s)) == s for every byte string s. */
  lemma RoundTrip(s: seq<bv8>)
    ensures |Encoded(s)| % 4 == 0
    ensures Decoded(Encoded(s)) == s
  {
    var full := 3 * (|s| / 3);
    var head, tail := EncodeGroups(s[..full]), EncodeTail(s[full..]);
    DecodeEncodeGroups(s[..full]);
    if |s| == full {
      assert tail == [] && head + tail == head;
      assert s[..full] == s;
    } else {
      DecodedSnoc(head, tail);
      DecodeEncodeTail(s[full..]);
      assert s[..full] + s[full..] == s;
    }
  }

  // ---------------------------------------------------------------------------
  // The two operations, step by step as the C++ code runs them. The steps that
  // encode and decode repeat (loading a buffer from the input, converting
  // between byte3 and byte4, appending characters) are separate methods.

  /** `buf[i] = s[pos++]` for i in 0 .. count - 1: copies the next count
      characters of the input into the buffer and advances the position. */
  method Load(s: seq<bv8>, pos: nat, buf: array<bv8>, count: nat) returns (next: nat)
    requires count <= buf.Length && pos + count <= |s|
    modifies buf
    ensures next == pos + count
    ensures buf[..count] == s[pos..next]
    ensures buf[count..] == old(buf[count..])
  {
    next := pos;
    for i := 0 to count
      invariant next == pos + i
      invariant buf[..i] == s[pos..next]
      invariant buf[count..] == old(buf[count..])
    {
      buf[i] := s[next];
      next := next + 1;
    }
  }

  /** The four assignments to byte4 (the same in the loop and for the remainder):
      the three bytes of byte3 cut into four 6-bit indices. */
  method SplitBytes(byte3: array<bv8>, byte4: array<bv8>)
    requires byte3.Length == 3 && byte4.Length == 4
    modifies byte4
    ensures byte4[..] == Sextets(byte3[0], byte3[1], byte3[2])
  {
    var b0, b1, b2 := byte3[0], byte3[1], byte3[2];
    byte4[0] := (b0 & 0xFC) >> 2;
    byte4[1] := ((b0 & 0x03) << 4) + ((b1 & 0xF0) >> 4);
    byte4[2] := ((b1 & 0x0F) << 2) + ((b2 & 0xC0) >> 6);
    byte4[3] := b2 & 0x3F;
    SextetsAre(b0, b1, b2, byte4[0], byte4[1], byte4[2], byte4[3]);
    assert byte4[..] == [byte4[0], byte4[1], byte4[2], byte4[3]];
  }

  lemma SextetsAre(b0: bv8, b1: bv8, b2: bv8, q0: bv8, q1: bv8, q2: bv8, q3: bv8)
    requires q0 == (b0 & 0xFC) >> 2 && q1 == ((b0 & 0x03) << 4) + ((b1 & 0xF0) >> 4)
    requires q2 == ((b1 & 0x0F) << 2) + ((b2 & 0xC0) >> 6) && q3 == b2 & 0x3F
    ensures Sextets(b0, b1, b2) == [q0, q1, q2, q3]
  {
  }

  /** `result += baseString[byte4[i]]` for i in 0 .. count - 1. */
  method AppendChars(result: seq<bv8>, byte4: array<bv8>, count: nat) returns (r: seq<bv8>)
    requires byte4.Length == 4 && count <= 4
    requires forall i :: 0 <= i < 4 ==> byte4[i] < 64
    ensures r == result + [Char(byte4[0]), Char(byte4[1]), Char(byte4[2]), Char(byte4[3])][..count]
  {
    ghost var all := [Char(byte4[0]), Char(byte4[1]), Char(byte4[2]), Char(byte4[3])];
    r := result;
    for i := 0 to count
      invariant r == result + all[..i]
    {
      r := r + [Char(byte4[i])];
    }
  }

  /** The characters of byte4's indices are those of the group byte3 held. */
  lemma EncodeGroupOfSextets(g: seq<bv8>, q: seq<bv8>)
    requires |g| == 3 && q == Sextets(g[0], g[1], g[2])
    ensures forall i :: 0 <= i < 4 ==> q[i] < 64
    ensures EncodeGroup(g) == [Char(q[0]), Char(q[1]), Char(q[2]), Char(q[3])]
  {
    SextetsBits(g[0], g[1], g[2]);
  }

  /** The same for a remainder of 1 or 2 bytes, zero-filled to three. */
  lemma EncodeTailOfSextets(t: seq<bv8>, q: seq<bv8>)
    requires 1 <= |t| <= 2 && q == Sextets(t[0], if |t| == 2 then t[1] else 0, 0)
    ensures forall i :: 0 <= i < 4 ==> q[i] < 64
    ensures EncodeTail(t) ==
              [Char(q[0]), Char(q[1]), Char(q[2]), Char(q[3])][..|t| + 1] + (if |t| == 1 then [Pad, Pad] else [Pad])
  {
    SextetsBits(t[0], if |t| == 2 then t[1] else 0, 0);
  }

  /** One round of the group loop: the next three bytes into byte3, their
      indices into byte4, and the four characters appended. */
  method EncodeNextGroup(s: seq<bv8>, pos: nat, byte3: array<bv8>, byte4: array<bv8>, result: seq<bv8>)
    returns (next: nat, r: seq<bv8>)
    requires byte3.Length == 3 && byte4.Length == 4 && pos + 3 <= |s|
    modifies byte3, byte4
    ensures next == pos + 3
    ensures r == result + EncodeGroup(s[pos..next])
  {
    next := Load(s, pos, byte3, 3);
    SplitBytes(byte3, byte4);
    EncodeGroupOfSextets(s[pos..next], byte4[..]);
    r := AppendChars(result, byte4, 4);
  }

  /** The remainder branch: the last 1 or 2 bytes zero-filled in byte3, their
      |t| + 1 characters, then `=` up to four characters. */
  method EncodeRemainder(s: seq<bv8>, pos: nat, byte3: array<bv8>, byte4: array<bv8>, result: seq<bv8>)
    returns (r: seq<bv8>)
    requires byte3.Length == 3 && byte4.Length == 4
    requires pos <= |s| && 1 <= |s| - pos <= 2
    modifies byte3, byte4
    ensures r == result + EncodeTail(s[pos..])
  {
    var remain := |s| - pos;
    var end := Load(s, pos, byte3, remain);
    for i := remain to 3
      invariant byte3[..remain] == s[pos..]
      invariant forall k :: remain <= k < i ==> byte3[k] == 0
    {
      byte3[i] := 0;
    }
    ghost var t := s[pos..];
    assert t[0] == byte3[0] && (remain == 2 ==> t[1] == byte3[1]);
    SplitBytes(byte3, byte4);
    EncodeTailOfSextets(t, byte4[..]);
    r := AppendChars(result, byte4, remain + 1);
    for i := remain + 1 to 4
      invariant r == result + EncodeTail(t)[..i]
    {
      r := r + [Pad];
    }
    assert EncodeTail(t)[..4] == EncodeTail(t);
  }

  /** `Base64Code::encode`: groups of three bytes pass through the buffers `byte3`
      and `byte4` and become four characters; a remainder of one or two bytes is
      zero-filled and its encoding padded with `=`. */
  method Encode(s: seq<bv8>) returns (result: seq<bv8>)
    ensures result == Encoded(s)
  {
    var byte3 := new bv8[3];
    var byte4 := new bv8[4];
    var group := |s| / 3;
    var remain := |s| - 3 * group;
    var pos := 0;
    result := [];
    for g := 0 to group
      invariant pos == 3 * g
      invariant result == EncodeGroups(s[..pos])
    {
      var next;
      next, result := EncodeNextGroup(s, pos, byte3, byte4, result);
      EncodeGroupsSnoc(s[..pos], s[pos..next]);
      assert s[..pos] + s[pos..next] == s[..next];
      pos := next;
    }
    assert s[..pos] == s[..3 * (|s| / 3)];
    if remain > 0 {
      result := EncodeRemainder(s, pos, byte3, byte4, result);
    }
  }

  /** `byte4[i] = baseString.find(s[pos++])` for i in 0 .. 3, the index cut to a byte. */
  method LoadIndices(s: seq<bv8>, pos: nat, byte4: array<bv8>) returns (next: nat)
    requires byte4.Length == 4 && pos + 4 <= |s|
    modifies byte4
    ensures next == pos + 4
    ensures forall i :: 0 <= i < 4 ==> byte4[i] == Index(s[pos + i])
  {
    next := pos;
    for i := 0 to 4
      invariant next == pos + i
      invariant forall k :: 0 <= k < i ==> byte4[k] == Index(s[pos + k])
    {
      byte4[i] := Index(s[next]);
      next := next + 1;
    }
  }

  /** The three assignments to byte3: the four 6-bit indices of byte4 joined into three bytes. */
  method JoinBytes(byte4: array<bv8>, byte3: array<bv8>)
    requires byte3.Length == 3 && byte4.Length == 4
    modifies byte3
    ensures byte3[..] == Octets(byte4[0], byte4[1], byte4[2], byte4[3])
  {
    var i0, i1, i2, i3 := byte4[0], byte4[1], byte4[2], byte4[3];
    byte3[0] := (i0 << 2) + ((i1 & 0x30) >> 4);
    byte3[1] := ((i1 & 0x0F) << 4) + ((i2 & 0x3C) >> 2);
    byte3[2] := ((i2 & 0x03) << 6) + i3;
    assert byte3[..] == [byte3[0], byte3[1], byte3[2]];
  }

  /** The if / else-if / else of the loop body: byte3[0] alone when byte4[2] is
      the sentinel 255, byte3[0] and byte3[1] when byte4[3] is, all three
      otherwise; for the group g the buffers were filled from, that is what g
      decodes to. */
  method AppendDecoded(result: seq<bv8>, ghost g: seq<bv8>, byte4: array<bv8>, byte3: array<bv8>)
    returns (r: seq<bv8>)
    requires |g| == 4 && byte4.Length == 4 && byte3.Length == 3
    requires forall i :: 0 <= i < 4 ==> byte4[i] == Index(g[i])
    requires byte3[..] == Octets(byte4[0], byte4[1], byte4[2], byte4[3])
    ensures r == result + DecodeGroup(g)
  {
    if byte4[2] == 255 {
      r := result + [byte3[0]];
    } else if byte4[3] == 255 {
      r := result + [byte3[0]];
      r := r + [byte3[1]];
    } else {
      r := result + [byte3[0]];
      r := r + [byte3[1]];
      r := r + [byte3[2]];
    }
  }

  /** `Base64Code::decode`: each group of four characters is mapped to indices
      with `find` (255 for `=`) into `byte4`, reassembled into `byte3`, and one,
      two or three of those bytes are appended depending on where the sentinel
      255 stands. The source asserts that the length is a multiple of 4. */
  method Decode(s: seq<bv8>) returns (result: seq<bv8>)
    requires |s| % 4 == 0
    ensures result == Decoded(s)
  {
    var byte3 := new bv8[3];
    var byte4 := new bv8[4];
    var group := |s| / 4;
    var pos := 0;
    result := [];
    for g := 0 to group
      invariant pos == 4 * g
      invariant result == Decoded(s[..pos])
    {
      var next := LoadIndices(s, pos, byte4);
      JoinBytes(byte4, byte3);
      result := AppendDecoded(result, s[pos..next], byte4, byte3);
      DecodedSnoc(s[..pos], s[pos..next]);
      assert s[..pos] + s[pos..next] == s[..next];
      pos := next;
    }
    assert s[..pos] == s;
  }
}
