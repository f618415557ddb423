/** The kernel's hexadecimal address and port encodings, as `_hex2dec`, `_ip`, `_ip6`
    and `ipv4toipv6` in check_netstat/check_netstat.py decode and produce them.

    In `/proc/net/tcp` an IPv4 address is the 32-bit word in host (little-endian) byte
    order written as `%08X`, so 127.0.0.1 appears as `0100007F`; in `/proc/net/tcp6` an
    IPv6 address is four such words. */
module HexCodec {
  import opened Wrappers
  import opened Strings

  /** `_hex2dec`: `str(int(s, 16))` */
  function Hex2Dec(s: string): Result<string>
  {
    var n :- ParseInt(s, Hexadecimal);
    Success(ToDecimal(n))
  }

  /** `_ip`: the four byte pairs of the first 8 characters, last pair first, each
      rendered in decimal and joined with dots. */
  function Ip(s: string): Result<string>
  {
    var a :- Hex2Dec(Slice(s, 6, 8));
    var b :- Hex2Dec(Slice(s, 4, 6));
    var c :- Hex2Dec(Slice(s, 2, 4));
    var d :- Hex2Dec(Slice(s, 0, 2));
    Success(Join([a, b, c, d], '.'))
  }

  /** The 16 two-character slices `_ip6` takes from `s`, in the order it emits them.
      Slices that lie past the end of `s` are empty. */
  function Ip6Segments(s: string): seq<string>
  {
    [Slice(s, 6, 8), Slice(s, 4, 6), Slice(s, 2, 4), Slice(s, 0, 2),
          Slice(s, 12, 14), Slice(s, 14, 16), Slice(s, 10, 12), Slice(s, 8, 10),
          Slice(s, 22, 24), Slice(s, 20, 22), Slice(s, 18, 20), Slice(s, 16, 18),
          Slice(s, 30, 32), Slice(s, 28, 30), Slice(s, 26, 28), Slice(s, 24, 26)]
  }

  /** `_ip6`: the 16 segments joined with colons, with no conversion. */
  function Ip6(s: string): string
  {
    Join(Ip6Segments(s), ':')
  }

  /** The first twelve bytes of an IPv4-mapped IPv6 address (section 2.5.5.2 of RFC 4291). */
  const MappedPrefix: string := "00:00:00:00:00:00:00:00:00:00:FF:FF:"

  /** `ipv4toipv6`: the dotted address in the layout `Ip6` produces for an IPv4-mapped
      address. Only the first four dot-separated parts are read; they are not range-checked. */
  function Ipv4ToIpv6(ipv4: string): Result<string>
  {
    var numbers := Split(ipv4, {'.'});
    var t0 :- At(numbers, 0);
    var n0 :- ParseInt(t0, Decimal);
    var t1 :- At(numbers, 1);
    var n1 :- ParseInt(t1, Decimal);
    var t2 :- At(numbers, 2);
    var n2 :- ParseInt(t2, Decimal);
    var t3 :- At(numbers, 3);
    var n3 :- ParseInt(t3, Decimal);
    Success(MappedPrefix + FormatHex02(n0) + ":" + FormatHex02(n1) + ":" + FormatHex02(n2) + ":" + FormatHex02(n3))
  }

  // ---------------------------------------------------------------------------
  // Reference definitions

  /** Eight hexadecimal digits, as the kernel writes one 32-bit word. */
  predicate IsHexWord(h: string)
  {
    |h| >= 8 && forall i :: 0 <= i < 8 ==> IsDigit(h[i], Hexadecimal)
  }

  /** The value of the byte written as the `i`-th pair of hexadecimal digits of `h`. */
  function ByteAt(h: string, i: nat): nat
    requires 2 * i + 1 < |h|
  {
    16 * DigitValue(h[2 * i]) + DigitValue(h[2 * i + 1])
  }

  /** a.b.c.d, each part in decimal. */
  function DottedQuad(a: int, b: int, c: int, d: int): string
  {
    Join([ToDecimal(a), ToDecimal(b), ToDecimal(c), ToDecimal(d)], '.')
  }

  /** How the kernel writes the IPv4 address a.b.c.d: the little-endian word as `%08X`. */
  function KernelHex(a: int, b: int, c: int, d: int): string
  {
    FormatHex02(d) + FormatHex02(c) + FormatHex02(b) + FormatHex02(a)
  }

  /** For each of the 16 segments `Ip6` emits, the index of the input byte pair it copies. */
  const Ip6Order: seq<nat> := [3, 2, 1, 0, 6, 7, 5, 4, 11, 10, 9, 8, 15, 14, 13, 12]

  // ---------------------------------------------------------------------------
  // IPv4

  lemma HexPairSlice(s: string, i: nat)
    requires IsHexWord(s) && i < 4
    ensures Slice(s, 2 * i, 2 * i + 2) == s[2 * i..2 * i + 2]
    ensures Hex2Dec(Slice(s, 2 * i, 2 * i + 2)) == Success(ToDecimal(ByteAt(s, i)))
    ensures ByteAt(s, i) < 256
  {
    var p := s[2 * i..2 * i + 2];
    ParseHexPair(p);
  }

  /** `_ip` reverses the byte order: the result is the four byte values of the first
      eight digits, last pair first, each in 0..255. */
  lemma IpOfHexWord(s: string)
    requires IsHexWord(s)
    ensures Ip(s) == Success(DottedQuad(ByteAt(s, 3), ByteAt(s, 2), ByteAt(s, 1), ByteAt(s, 0)))
    ensures ByteAt(s, 0) < 256 && ByteAt(s, 1) < 256 && ByteAt(s, 2) < 256 && ByteAt(s, 3) < 256
  {
    HexPairSlice(s, 0);
    HexPairSlice(s, 1);
    HexPairSlice(s, 2);
    HexPairSlice(s, 3);
  }

  /** Decoding the kernel's encoding of a dotted quad gives back the dotted quad. */
  lemma IpRoundTrip(a: int, b: int, c: int, d: int)
    requires 0 <= a < 256 && 0 <= b < 256 && 0 <= c < 256 && 0 <= d < 256
    ensures Ip(KernelHex(a, b, c, d)) == Success(DottedQuad(a, b, c, d))
  {
    var pa, pb, pc, pd := FormatHex02(a), FormatHex02(b), FormatHex02(c), FormatHex02(d);
    FormatHex02Byte(a);
    FormatHex02Byte(b);
    FormatHex02Byte(c);
    FormatHex02Byte(d);
    var h := pd + pc + pb + pa;
    assert h == KernelHex(a, b, c, d);
    assert h[0] == pd[0] && h[1] == pd[1] && h[2] == pc[0] && h[3] == pc[1];
    assert h[4] == pb[0] && h[5] == pb[1] && h[6] == pa[0] && h[7] == pa[1];
    forall i | 0 <= i < 8
      ensures IsDigit(h[i], Hexadecimal)
    {
      if i < 2 {
        assert h[i] == pd[i];
      } else if i < 4 {
        assert h[i] == pc[i - 2];
      } else if i < 6 {
        assert h[i] == pb[i - 4];
      } else {
        assert h[i] == pa[i - 6];
      }
    }
    assert ByteAt(h, 0) == d && ByteAt(h, 1) == c && ByteAt(h, 2) == b && ByteAt(h, 3) == a;
    IpOfHexWord(h);
  }

  lemma DecimalSamples()
    ensures ToDecimal(0) == "0" && ToDecimal(1) == "1" && ToDecimal(127) == "127"
  {
    assert NatToString(12, Decimal) == "12";
  }

  lemma DottedQuadSamples()
    ensures DottedQuad(127, 0, 0, 1) == "127.0.0.1"
    ensures DottedQuad(1, 0, 0, 127) == "1.0.0.127"
  {
    DecimalSamples();
    JoinFour("127", "0", "0", "1", '.');
    JoinFour("1", "0", "0", "127", '.');
  }

  lemma ByteSamples()
    ensures IsHexWord("0100007F") && IsHexWord("7F000001")
    ensures ByteAt("0100007F", 0) == 1 && ByteAt("0100007F", 1) == 0
    ensures ByteAt("0100007F", 2) == 0 && ByteAt("0100007F", 3) == 127
    ensures ByteAt("7F000001", 0) == 127 && ByteAt("7F000001", 1) == 0
    ensures ByteAt("7F000001", 2) == 0 && ByteAt("7F000001", 3) == 1
  {
  }

  /** Known kernel samples: `0100007F` is the loopback address; `7F000001` is read
      the other way round. */
  lemma IpKernelSamples()
    ensures Ip("0100007F") == Success("127.0.0.1")
    ensures Ip("7F000001") == Success("1.0.0.127")
  {
    DottedQuadSamples();
    ByteSamples();
    IpOfHexWord("0100007F");
    IpOfHexWord("7F000001");
  }

  /** Characters past the eighth are never read. */
  lemma IpIgnoresTail(s: string)
    requires |s| >= 8
    ensures Ip(s) == Ip(s[..8])
  {
    assert Slice(s, 0, 2) == Slice(s[..8], 0, 2);
    assert Slice(s, 2, 4) == Slice(s[..8], 2, 4);
    assert Slice(s, 4, 6) == Slice(s[..8], 4, 6);
    assert Slice(s, 6, 8) == Slice(s[..8], 6, 8);
  }

  /** An address of six characters or fewer has an empty last pair: `int('', 16)` fails. */
  lemma IpTooShort(s: string)
    requires |s| <= 6
    ensures Ip(s) == Failure(ValueError)
  {
    assert Slice(s, 6, 8) == "";
  }

  // ---------------------------------------------------------------------------
  // IPv6

  /** The join of two-character pieces puts piece `k` at offset `3 * k`. */
  lemma {:induction false} JoinOfPairs(parts: seq<string>, sep: char)
    requires |parts| >= 1
    requires forall k :: 0 <= k < |parts| ==> |parts[k]| == 2
    ensures |Join(parts, sep)| == 3 * |parts| - 1
    ensures forall k :: 0 <= k < |parts| ==> Join(parts, sep)[3 * k..3 * k + 2] == parts[k]
    ensures forall k :: 0 <= k < |parts| - 1 ==> Join(parts, sep)[3 * k + 2] == sep
    decreases |parts|
  {
    if |parts| > 1 {
      var tail := Join(parts[1..], sep);
      JoinOfPairs(parts[1..], sep);
      var j := Join(parts, sep);
      assert j == parts[0] + [sep] + tail;
      forall k | 1 <= k < |parts|
        ensures j[3 * k..3 * k + 2] == parts[k]
      {
        assert j[3 * k..3 * k + 2] == tail[3 * (k - 1)..3 * (k - 1) + 2];
      }
      forall k | 1 <= k < |parts| - 1
        ensures j[3 * k + 2] == sep
      {
        assert j[3 * k + 2] == tail[3 * (k - 1) + 2];
      }
    }
  }

  /** `_ip6` emits 16 two-character segments separated by colons; segment `k` is the
      input's byte pair `Ip6Order[k]`, copied unchanged. */
  lemma Ip6Layout(s: string)
    requires |s| >= 32
    ensures |Ip6(s)| == 47
    ensures forall k :: 0 <= k < 16 ==> Ip6(s)[3 * k..3 * k + 2] == s[2 * Ip6Order[k]..2 * Ip6Order[k] + 2]
    ensures forall k :: 0 <= k < 15 ==> Ip6(s)[3 * k + 2] == ':'
  {
    var parts := Ip6Segments(s);
    forall k | 0 <= k < 16
      ensures parts[k] == s[2 * Ip6Order[k]..2 * Ip6Order[k] + 2]
    {
    }
    JoinOfPairs(parts, ':');
  }

  /** `Ip6Order` is a permutation of the 16 byte pairs that keeps every 4-byte group in
      place; groups 1, 3 and 4 are byte-reversed, group 2 is taken as 6, 7, 5, 4, so
      bytes 4 and 5 of a native IPv6 address come out swapped. */
  lemma Ip6OrderShape()
    ensures |Ip6Order| == 16
    ensures forall k :: 0 <= k < 16 ==> Ip6Order[k] < 16 && Ip6Order[k] / 4 == k / 4
    ensures forall i, j :: 0 <= i < j < 16 ==> Ip6Order[i] != Ip6Order[j]
    ensures forall k :: 0 <= k < 16 && k / 4 != 1 ==> Ip6Order[k] == 4 * (k / 4) + 3 - k % 4
    ensures Ip6Order[4..8] == [6, 7, 5, 4]
  {
  }

  // ---------------------------------------------------------------------------
  // IPv4-mapped IPv6

  lemma {:induction false} JoinAppend(a: seq<string>, b: seq<string>, sep: char)
    requires |a| >= 1 && |b| >= 1
    ensures Join(a + b, sep) == Join(a, sep) + [sep] + Join(b, sep)
    decreases |a|
  {
    if |a| == 1 {
      assert (a + b)[1..] == b;
    } else {
      assert (a + b)[1..] == a[1..] + b;
      JoinAppend(a[1..], b, sep);
    }
  }

  lemma JoinFour(w: string, x: string, y: string, z: string, sep: char)
    ensures Join([w, x, y, z], sep) == w + [sep] + x + [sep] + y + [sep] + z
  {
    assert [w, x, y, z][1..] == [x, y, z];
    assert [x, y, z][1..] == [y, z];
    assert [y, z][1..] == [z];
    assert Join([y, z], sep) == y + [sep] + z;
    assert Join([x, y, z], sep) == x + [sep] + (y + [sep] + z);
    assert Join([w, x, y, z], sep) == w + [sep] + (x + [sep] + (y + [sep] + z));
  }

  /** `ipv4toipv6` of a dotted quad: the mapped prefix, then the four parts as two
      upper-case hexadecimal digits each, in order. */
  lemma Ipv4ToIpv6OfQuad(a: int, b: int, c: int, d: int)
    requires 0 <= a < 256 && 0 <= b < 256 && 0 <= c < 256 && 0 <= d < 256
    ensures Ipv4ToIpv6(DottedQuad(a, b, c, d))
         == Success(MappedPrefix + FormatHex02(a) + ":" + FormatHex02(b) + ":" + FormatHex02(c) + ":" + FormatHex02(d))
  {
    var parts := [ToDecimal(a), ToDecimal(b), ToDecimal(c), ToDecimal(d)];
    forall k, i | 0 <= k < 4 && 0 <= i < |parts[k]|
      ensures parts[k][i] != '.'
    {
      NatToStringValue([a, b, c, d][k], Decimal);
    }
    SplitOfJoin(parts, '.');
    ParseIntOfDecimal(a);
    ParseIntOfDecimal(b);
    ParseIntOfDecimal(c);
    ParseIntOfDecimal(d);
  }

  /** A destination that is not four dot-separated parts has no mapped form. */
  lemma Ipv4ToIpv6NeedsFourParts(ipv4: string)
    requires |Split(ipv4, {'.'})| < 4
    ensures Ipv4ToIpv6(ipv4).Failure?
  {
    assert At(Split(ipv4, {'.'}), 3) == Failure(IndexError);
  }

  lemma SliceIsPair(s: string, i: nat, p: string)
    requires i + 2 <= |s| && |p| == 2 && s[i] == p[0] && s[i + 1] == p[1]
    ensures Slice(s, i, i + 2) == p
  {
  }

  /** The mapped prefix, as three groups of four segments. */
  lemma MappedPrefixGroups()
    ensures "00:00:00:00" + ":" + "00:00:00:00" + ":" + "00:00:FF:FF" + ":" == MappedPrefix
  {
  }

  /** The twelve fixed segments of a mapped address, joined, are the mapped prefix. */
  lemma MappedPrefixJoin()
    ensures Join(["00", "00", "00", "00", "00", "00", "00", "00", "00", "00", "FF", "FF"], ':') + ":" == MappedPrefix
  {
    var zeros := ["00", "00", "00", "00"];
    var ones := ["00", "00", "FF", "FF"];
    JoinFour("00", "00", "00", "00", ':');
    JoinFour("00", "00", "FF", "FF", ':');
    assert Join(zeros, ':') == "00:00:00:00";
    assert Join(ones, ':') == "00:00:FF:FF";
    JoinAppend(zeros, zeros, ':');
    JoinAppend(zeros + zeros, ones, ':');
    assert zeros + zeros + ones == ["00", "00", "00", "00", "00", "00", "00", "00", "00", "00", "FF", "FF"];
    MappedPrefixGroups();
  }

  /** `_ip6` output as its first twelve segments and its last four. */
  lemma Ip6Split(s: string)
    ensures Ip6(s) == Join(Ip6Segments(s)[..12], ':') + ":" + Join(Ip6Segments(s)[12..], ':')
  {
    var segments := Ip6Segments(s);
    assert segments == segments[..12] + segments[12..];
    JoinAppend(segments[..12], segments[12..], ':');
  }

  /** The tcp6 address column of the IPv4-mapped address `::ffff:h`, where `h` is the
      IPv4 address as `/proc/net/tcp` writes it. */
  function MappedRow(h: string): string
  {
    "0000000000000000FFFF0000" + h
  }

  /** The row is made of hexadecimal digits, as `int(_, 16)` accepts them. */
  lemma MappedRowDigits(h: string)
    requires forall i :: 0 <= i < |h| ==> IsUpperHexDigit(h[i])
    ensures forall i :: 0 <= i < |MappedRow(h)| ==> IsDigit(MappedRow(h)[i], Hexadecimal)
  {
    var marker := "0000000000000000FFFF0000";
    forall i | 0 <= i < |marker|
      ensures IsDigit(marker[i], Hexadecimal)
    {
      assert marker[i] in {'0', 'F'};
    }
    forall i | 0 <= i < |MappedRow(h)|
      ensures IsDigit(MappedRow(h)[i], Hexadecimal)
    {
      if i < |marker| {
        assert MappedRow(h)[i] == marker[i];
      } else {
        assert MappedRow(h)[i] == h[i - |marker|];
      }
    }
  }

  lemma MappedRowLow(h: string)
    requires |h| == 8
    ensures Slice(MappedRow(h), 0, 2) == "00" && Slice(MappedRow(h), 2, 4) == "00"
    ensures Slice(MappedRow(h), 4, 6) == "00" && Slice(MappedRow(h), 6, 8) == "00"
  {
    SliceIsPair(MappedRow(h), 0, "00");
    SliceIsPair(MappedRow(h), 2, "00");
    SliceIsPair(MappedRow(h), 4, "00");
    SliceIsPair(MappedRow(h), 6, "00");
  }

  lemma MappedRowMiddle(h: string)
    requires |h| == 8
    ensures Slice(MappedRow(h), 8, 10) == "00" && Slice(MappedRow(h), 10, 12) == "00"
    ensures Slice(MappedRow(h), 12, 14) == "00" && Slice(MappedRow(h), 14, 16) == "00"
  {
    SliceIsPair(MappedRow(h), 8, "00");
    SliceIsPair(MappedRow(h), 10, "00");
    SliceIsPair(MappedRow(h), 12, "00");
    SliceIsPair(MappedRow(h), 14, "00");
  }

  lemma MappedRowMarker(h: string)
    requires |h| == 8
    ensures Slice(MappedRow(h), 16, 18) == "FF" && Slice(MappedRow(h), 18, 20) == "FF"
    ensures Slice(MappedRow(h), 20, 22) == "00" && Slice(MappedRow(h), 22, 24) == "00"
  {
    SliceIsPair(MappedRow(h), 16, "FF");
    SliceIsPair(MappedRow(h), 18, "FF");
    SliceIsPair(MappedRow(h), 20, "00");
    SliceIsPair(MappedRow(h), 22, "00");
  }

  lemma MappedRowWord(h: string)
    requires |h| == 8
    ensures Slice(MappedRow(h), 24, 26) == h[0..2] && Slice(MappedRow(h), 26, 28) == h[2..4]
    ensures Slice(MappedRow(h), 28, 30) == h[4..6] && Slice(MappedRow(h), 30, 32) == h[6..8]
  {
    SliceIsPair(MappedRow(h), 24, h[0..2]);
    SliceIsPair(MappedRow(h), 26, h[2..4]);
    SliceIsPair(MappedRow(h), 28, h[4..6]);
    SliceIsPair(MappedRow(h), 30, h[6..8]);
  }

  /** The segments `_ip6` takes from the tcp6 row of `::ffff:h`. */
  lemma MappedSegments(h: string)
    requires |h| == 8
    ensures Ip6Segments(MappedRow(h))[..12]
         == ["00", "00", "00", "00", "00", "00", "00", "00", "00", "00", "FF", "FF"]
    ensures Ip6Segments(MappedRow(h))[12..] == [h[6..8], h[4..6], h[2..4], h[0..2]]
  {
    MappedRowLow(h);
    MappedRowMiddle(h);
    MappedRowMarker(h);
    MappedRowWord(h);
  }

  /** `_ip6` of a tcp6 row holding the IPv4-mapped address `::ffff:h`. */
  lemma Ip6OfMapped(h: string)
    requires |h| == 8
    ensures Ip6(MappedRow(h))
         == MappedPrefix + h[6..8] + ":" + h[4..6] + ":" + h[2..4] + ":" + h[0..2]
  {
    var segments := Ip6Segments(MappedRow(h));
    var word := h[6..8] + ":" + h[4..6] + ":" + h[2..4] + ":" + h[0..2];
    Ip6Split(MappedRow(h));
    MappedSegments(h);
    assert Join(segments[..12], ':') + ":" == MappedPrefix by {
      MappedPrefixJoin();
    }
    assert Join(segments[12..], ':') == word by {
      JoinFour(h[6..8], h[4..6], h[2..4], h[0..2], ':');
    }
    assert Ip6(MappedRow(h)) == MappedPrefix + word;
    Reassociate(MappedPrefix, h[6..8], h[4..6], h[2..4], h[0..2]);
  }

  lemma Reassociate(p: string, a: string, b: string, c: string, d: string)
    ensures p + (a + ":" + b + ":" + c + ":" + d) == p + a + ":" + b + ":" + c + ":" + d
  {
  }

  lemma FormatHex02OfByteAt(h: string, i: nat)
    requires |h| == 8 && forall i :: 0 <= i < 8 ==> IsUpperHexDigit(h[i])
    requires i < 4
    ensures FormatHex02(ByteAt(h, i)) == h[2 * i..2 * i + 2]
  {
    var p := h[2 * i..2 * i + 2];
    assert p[0] == h[2 * i] && p[1] == h[2 * i + 1];
    FormatHex02OfPair(p);
  }

  /** `ipv4toipv6(_ip(h))` for an upper-case hexadecimal word `h`. */
  lemma Ipv4ToIpv6OfIp(h: string)
    requires |h| == 8 && forall i :: 0 <= i < 8 ==> IsUpperHexDigit(h[i])
    ensures Ip(h).Success?
    ensures Ipv4ToIpv6(Ip(h).value)
         == Success(MappedPrefix + h[6..8] + ":" + h[4..6] + ":" + h[2..4] + ":" + h[0..2])
  {
    assert IsHexWord(h);
    IpOfHexWord(h);
    MappedOfWordBytes(h);
  }

  /** `ipv4toipv6` of the bytes of `h`, most significant first, gives back the pairs of `h`. */
  lemma MappedOfWordBytes(h: string)
    requires |h| == 8 && forall i :: 0 <= i < 8 ==> IsUpperHexDigit(h[i])
    ensures Ipv4ToIpv6(DottedQuad(ByteAt(h, 3), ByteAt(h, 2), ByteAt(h, 1), ByteAt(h, 0)))
         == Success(MappedPrefix + h[6..8] + ":" + h[4..6] + ":" + h[2..4] + ":" + h[0..2])
  {
    var a, b, c, d := ByteAt(h, 3), ByteAt(h, 2), ByteAt(h, 1), ByteAt(h, 0);
    FormatHex02OfByteAt(h, 3);
    FormatHex02OfByteAt(h, 2);
    FormatHex02OfByteAt(h, 1);
    FormatHex02OfByteAt(h, 0);
    var mapped := MappedPrefix + FormatHex02(a) + ":" + FormatHex02(b) + ":" + FormatHex02(c) + ":" + FormatHex02(d);
    Ipv4ToIpv6OfQuad(a, b, c, d);
    assert Ipv4ToIpv6(DottedQuad(a, b, c, d)) == Success(mapped);
    SameColonWord(MappedPrefix, FormatHex02(a), FormatHex02(b), FormatHex02(c), FormatHex02(d),
                  h[6..8], h[4..6], h[2..4], h[0..2]);
  }

  lemma SameColonWord(p: string, a: string, b: string, c: string, d: string,
                      a': string, b': string, c': string, d': string)
    requires a == a' && b == b' && c == c' && d == d'
    ensures p + a + ":" + b + ":" + c + ":" + d == p + a' + ":" + b' + ":" + c' + ":" + d'
  {
  }

  /** What makes the mapped-destination match work: for an upper-case hexadecimal word
      `h`, the tcp6 row of the IPv4-mapped address `::ffff:h` decodes, through `_ip6`,
      to exactly `ipv4toipv6(_ip(h))`. */
  lemma MappedAddressMatches(h: string)
    requires |h| == 8 && forall i :: 0 <= i < 8 ==> IsUpperHexDigit(h[i])
    ensures Ip(h).Success?
    ensures Ipv4ToIpv6(Ip(h).value) == Success(Ip6(MappedRow(h)))
  {
    Ipv4ToIpv6OfIp(h);
    Ip6OfMapped(h);
  }
}
