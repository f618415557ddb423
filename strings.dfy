/** The Python 2 string built-ins the probes rely on, over `string` (= `seq<char>`):
    slicing, `split`, `join`, `strip`, `int()`, `str()` and the `{:02X}` format. */
module Strings {
  import opened Wrappers

  /** The characters Python 2's `str.split()` and `str.strip()` treat as whitespace. */
  const Whitespace: set<char> := {' ', '\t', '\n', '\r', '\U{000B}', '\U{000C}'}

  /** `s[i:j]` for non-negative bounds: bounds past the end are clamped, never an error. */
  function Slice(s: string, i: nat, j: nat): string
  {
    var lo := if i < |s| then i else |s|;
    var hi := if j < |s| then j else |s|;
    if lo <= hi then s[lo..hi] else ""
  }

  /** `s[:-1]`: everything but the last character; the empty string stays empty. */
  function DropLast(s: string): string
  {
    if |s| == 0 then "" else s[..|s| - 1]
  }

  /** Cuts `s` at every character of `seps`, keeping empty pieces: with `seps == {c}`
      this is Python's `s.split(c)`. It never returns the empty list. */
  function Split(s: string, seps: set<char>): (r: seq<string>)
    ensures |r| >= 1
    decreases |s|
  {
    if |s| == 0 then [""]
    else
      var rest := Split(s[1..], seps);
      if s[0] in seps then [""] + rest
      else [[s[0]] + rest[0]] + rest[1..]
  }

  /** `sep.join(parts)` */
  function Join(parts: seq<string>, sep: char): string
  {
    if |parts| == 0 then ""
    else if |parts| == 1 then parts[0]
    else parts[0] + [sep] + Join(parts[1..], sep)
  }

  /** `[x for x in xs if x != '']`: keeps exactly the non-empty strings. */
  function RemoveEmpty(xs: seq<string>): (r: seq<string>)
    ensures forall x :: x in r ==> x != "" && x in xs
    ensures forall x :: x in xs && x != "" ==> x in r
  {
    if |xs| == 0 then []
    else if xs[0] == "" then RemoveEmpty(xs[1..])
    else [xs[0]] + RemoveEmpty(xs[1..])
  }

  /** `s.split()`: the maximal runs of non-whitespace characters, in order. */
  function Fields(s: string): seq<string>
  {
    RemoveEmpty(Split(s, Whitespace))
  }

  /** `s.rstrip()`: the longest prefix of `s` that does not end in whitespace. */
  function RStrip(s: string): (r: string)
    ensures |r| <= |s| && r == s[..|r|]
    ensures |r| > 0 ==> r[|r| - 1] !in Whitespace
    ensures forall i :: |r| <= i < |s| ==> s[i] in Whitespace
    decreases |s|
  {
    if |s| > 0 && s[|s| - 1] in Whitespace then RStrip(s[..|s| - 1]) else s
  }

  /** `s.lstrip()` */
  function LStrip(s: string): string
    decreases |s|
  {
    if |s| > 0 && s[0] in Whitespace then LStrip(s[1..]) else s
  }

  /** `s.strip()` */
  function Strip(s: string): string
  {
    LStrip(RStrip(s))
  }

  /** `sub` occurs somewhere in `s` as a contiguous piece. */
  predicate Contains(s: string, sub: string)
  {
    exists k :: 0 <= k <= |s| - |sub| && OccursAt(s, sub, k)
  }

  predicate OccursAt(s: string, sub: string, k: nat)
    requires k + |sub| <= |s|
  {
    s[k..k + |sub|] == sub
  }

  // ---------------------------------------------------------------------------
  // Numerals

  datatype Radix = Decimal | Hexadecimal

  function Base(radix: Radix): nat
  {
    if radix == Decimal then 10 else 16
  }

  predicate IsDigit(c: char, radix: Radix)
  {
    ('0' <= c <= '9') || (radix == Hexadecimal && ('a' <= c <= 'f' || 'A' <= c <= 'F'))
  }

  /** A digit as the `X` format writes it. */
  predicate IsUpperHexDigit(c: char)
  {
    '0' <= c <= '9' || 'A' <= c <= 'F'
  }

  function DigitValue(c: char): nat
  {
    if '0' <= c <= '9' then c as int - '0' as int
    else if 'a' <= c <= 'f' then c as int - 'a' as int + 10
    else if 'A' <= c <= 'F' then c as int - 'A' as int + 10
    else 0
  }

  /** The value of a digit string, most significant digit first. */
  function DigitsValue(ds: string, radix: Radix): nat
  {
    if |ds| == 0 then 0
    else DigitsValue(ds[..|ds| - 1], radix) * Base(radix) + DigitValue(ds[|ds| - 1])
  }

  /** Python 2's `int(s)` (Decimal) and `int(s, 16)` (Hexadecimal): surrounding whitespace,
      an optional sign followed by optional whitespace and, in base 16, an optional `0x`
      prefix, then at least one digit; anything else raises ValueError. */
  function ParseInt(s: string, radix: Radix): Result<int>
  {
    var t := Strip(s);
    var signed := |t| > 0 && (t[0] == '-' || t[0] == '+');
    var unsigned := if signed then LStrip(t[1..]) else t;
    var digits :=
      if radix == Hexadecimal && |unsigned| >= 2 && unsigned[0] == '0' && (unsigned[1] == 'x' || unsigned[1] == 'X')
      then unsigned[2..]
      else unsigned;
    if |digits| > 0 && forall c :: c in digits ==> IsDigit(c, radix) then
      var magnitude: int := DigitsValue(digits, radix);
      Success(if signed && t[0] == '-' then -magnitude else magnitude)
    else
      Failure(ValueError)
  }

  function DigitChar(d: nat): char
    requires d < 16
  {
    if d < 10 then ('0' as int + d) as char else ('A' as int + d - 10) as char
  }

  /** The digits of `n`, upper-case, with no leading zero. */
  function NatToString(n: nat, radix: Radix): string
    decreases n
  {
    if n < Base(radix) then [DigitChar(n)]
    else NatToString(n / Base(radix), radix) + [DigitChar(n % Base(radix))]
  }

  /** `str(n)` and `'%d' % n` */
  function ToDecimal(n: int): string
  {
    if n < 0 then "-" + NatToString(-n, Decimal) else NatToString(n, Decimal)
  }

  /** `'{0:02X}'.format(n)`: upper-case hexadecimal, zero-padded to width 2; a sign
      already makes a negative number two characters wide. */
  function FormatHex02(n: int): string
  {
    if n < 0 then "-" + NatToString(-n, Hexadecimal)
    else
      var h := NatToString(n, Hexadecimal);
      if |h| < 2 then "0" + h else h
  }

  // ---------------------------------------------------------------------------
  // Split and Join are inverse

  /** A piece free of separators is glued to the first piece of what follows it. */
  lemma {:induction false} SplitPrefix(x: string, rest: string, seps: set<char>)
    requires forall i :: 0 <= i < |x| ==> x[i] !in seps
    ensures Split(x + rest, seps) == [x + Split(rest, seps)[0]] + Split(rest, seps)[1..]
    decreases |x|
  {
    var tail := Split(rest, seps);
    if |x| == 0 {
      assert x + rest == rest;
      assert x + tail[0] == tail[0];
      assert [tail[0]] + tail[1..] == tail;
    } else {
      assert (x + rest)[1..] == x[1..] + rest;
      SplitPrefix(x[1..], rest, seps);
      assert [x[0]] + (x[1..] + Split(rest, seps)[0]) == x + Split(rest, seps)[0];
    }
  }

  /** Joining the pieces of `s.split(c)` with `c` gives back `s`. */
  lemma {:induction false} JoinOfSplit(s: string, c: char)
    ensures Join(Split(s, {c}), c) == s
    decreases |s|
  {
    if |s| > 0 {
      var rest := Split(s[1..], {c});
      JoinOfSplit(s[1..], c);
      if s[0] == c {
        assert Split(s, {c}) == [""] + rest;
        assert ([""] + rest)[1..] == rest;
        assert s == [c] + s[1..];
      } else {
        var parts := Split(s, {c});
        assert parts == [[s[0]] + rest[0]] + rest[1..];
        if |rest| == 1 {
          assert Join(rest, c) == rest[0];
          assert s == [s[0]] + s[1..];
        } else {
          assert parts[1..] == rest[1..];
          assert Join(rest, c) == rest[0] + [c] + Join(rest[1..], c);
          assert s == [s[0]] + s[1..];
        }
      }
    }
  }

  /** Splitting a join on its separator gives back the pieces, when no piece holds it. */
  lemma {:induction false} SplitOfJoin(parts: seq<string>, c: char)
    requires |parts| >= 1
    requires forall k, i :: 0 <= k < |parts| && 0 <= i < |parts[k]| ==> parts[k][i] != c
    ensures Split(Join(parts, c), {c}) == parts
    decreases |parts|
  {
    SplitPrefix(parts[0], "", {c});
    assert parts[0] + "" == parts[0];
    if |parts| > 1 {
      var tail := Join(parts[1..], c);
      SplitOfJoin(parts[1..], c);
      assert ([c] + tail)[1..] == tail;
      assert Split([c] + tail, {c}) == [""] + Split(tail, {c});
      SplitPrefix(parts[0], [c] + tail, {c});
      assert parts[0] + ([c] + tail) == Join(parts, c);
      assert [parts[0]] + parts[1..] == parts;
    }
  }

  // ---------------------------------------------------------------------------
  // Numerals round-trip

  lemma DigitCharValue(d: nat)
    requires d < 16
    ensures DigitValue(DigitChar(d)) == d && IsUpperHexDigit(DigitChar(d))
    ensures d < 10 ==> IsDigit(DigitChar(d), Decimal)
  {
  }

  lemma UpperHexDigitRoundTrip(c: char)
    requires IsUpperHexDigit(c)
    ensures DigitValue(c) < 16 && DigitChar(DigitValue(c)) == c
  {
  }

  /** `NatToString` writes digits of the radix whose value is `n`. */
  lemma {:induction false} NatToStringValue(n: nat, radix: Radix)
    ensures var r := NatToString(n, radix);
      && |r| >= 1
      && (forall i :: 0 <= i < |r| ==> IsDigit(r[i], radix) && IsUpperHexDigit(r[i]))
      && DigitsValue(r, radix) == n
    decreases n
  {
    var b := Base(radix);
    var r := NatToString(n, radix);
    if n < b {
      DigitCharValue(n);
      assert r[..|r| - 1] == "";
    } else {
      NatToStringValue(n / b, radix);
      DigitCharValue(n % b);
      var init := NatToString(n / b, radix);
      assert r == init + [DigitChar(n % b)];
      assert r[..|r| - 1] == init;
      assert DigitsValue(r, radix) == (n / b) * b + n % b;
    }
  }

  lemma StripUnpadded(s: string)
    requires |s| > 0 && s[0] !in Whitespace && s[|s| - 1] !in Whitespace
    ensures Strip(s) == s
  {
  }

  /** `int(str(n)) == n` */
  lemma ParseIntOfDecimal(n: int)
    ensures ParseInt(ToDecimal(n), Decimal) == Success(n)
  {
    var m := if n < 0 then -n else n;
    var d := NatToString(m, Decimal);
    NatToStringValue(m, Decimal);
    var s := ToDecimal(n);
    assert s[|s| - 1] == d[|d| - 1];
    StripUnpadded(s);
    assert d[0] !in Whitespace;
    assert LStrip(d) == d;
    if n < 0 {
      assert s[1..] == d;
    }
  }

  /** `int(p, 16)` of two hexadecimal digits is their byte value. */
  lemma ParseHexPair(p: string)
    requires |p| == 2 && IsDigit(p[0], Hexadecimal) && IsDigit(p[1], Hexadecimal)
    ensures ParseInt(p, Hexadecimal) == Success(16 * DigitValue(p[0]) + DigitValue(p[1]))
  {
    StripUnpadded(p);
    assert p[..1][..0] == "";
    assert p[..|p| - 1] == p[..1];
    assert DigitsValue(p[..1], Hexadecimal) == DigitValue(p[0]);
    assert DigitsValue(p, Hexadecimal) == 16 * DigitValue(p[0]) + DigitValue(p[1]);
    assert forall c :: c in p ==> IsDigit(c, Hexadecimal);
  }

  /** `'{0:02X}'` of a byte value is two upper-case hexadecimal digits of that value. */
  lemma FormatHex02Byte(n: int)
    requires 0 <= n < 256
    ensures var r := FormatHex02(n);
      |r| == 2 && IsUpperHexDigit(r[0]) && IsUpperHexDigit(r[1])
      && 16 * DigitValue(r[0]) + DigitValue(r[1]) == n
  {
    if n < 16 {
      DigitCharValue(n);
    } else {
      DigitCharValue(n / 16);
      DigitCharValue(n % 16);
      assert NatToString(n / 16, Hexadecimal) == [DigitChar(n / 16)];
    }
  }

  /** `'{0:02X}'.format(int(p, 16)) == p` for two upper-case hexadecimal digits. */
  lemma FormatHex02OfPair(p: string)
    requires |p| == 2 && IsUpperHexDigit(p[0]) && IsUpperHexDigit(p[1])
    ensures FormatHex02(16 * DigitValue(p[0]) + DigitValue(p[1])) == p
  {
    UpperHexDigitRoundTrip(p[0]);
    UpperHexDigitRoundTrip(p[1]);
    var n := 16 * DigitValue(p[0]) + DigitValue(p[1]);
    if n >= 16 {
      assert n / 16 == DigitValue(p[0]) && n % 16 == DigitValue(p[1]);
      assert NatToString(n / 16, Hexadecimal) == [p[0]];
    } else {
      assert DigitValue(p[0]) == 0;
    }
  }

  /** `int(ds, base)` of a plain run of digits is their value. */
  lemma ParseDigits(ds: string, radix: Radix)
    requires |ds| > 0 && forall i :: 0 <= i < |ds| ==> IsDigit(ds[i], radix)
    ensures ParseInt(ds, radix) == Success(DigitsValue(ds, radix))
  {
    StripUnpadded(ds);
    assert forall c :: c in ds ==> IsDigit(c, radix);
  }

  // ---------------------------------------------------------------------------
  // Empty pieces

  /** Dropping empty pieces keeps the others in order: it distributes over `+`. */
  lemma {:induction false} RemoveEmptyAppend(xs: seq<string>, ys: seq<string>)
    ensures RemoveEmpty(xs + ys) == RemoveEmpty(xs) + RemoveEmpty(ys)
    decreases |xs|
  {
    if |xs| == 0 {
      assert xs + ys == ys;
    } else {
      assert (xs + ys)[1..] == xs[1..] + ys;
      RemoveEmptyAppend(xs[1..], ys);
    }
  }

  /** A list with no empty piece is left as it is. */
  lemma {:induction false} RemoveEmptyOfNonEmpty(xs: seq<string>)
    requires forall i :: 0 <= i < |xs| ==> xs[i] != ""
    ensures RemoveEmpty(xs) == xs
    decreases |xs|
  {
    if |xs| > 0 {
      RemoveEmptyOfNonEmpty(xs[1..]);
    }
  }
}
