/**
 * Byte strings and the text forms the bridge moves them through: lower-case
 * hexadecimal (what keccak256 and Number.prototype.toString(16) print), Node's
 * lenient Buffer hex decoder, the strict decoder behind the rlp package,
 * minimal big-endian integers and UTF-8.
 */
module Bytes {
  import opened Wrappers

  type byte = b: int | 0 <= b < 256

  predicate IsHexDigit(c: char) {
    '0' <= c <= '9' || 'a' <= c <= 'f' || 'A' <= c <= 'F'
  }

  predicate IsLowerHexDigit(c: char) {
    '0' <= c <= '9' || 'a' <= c <= 'f'
  }

  predicate IsLowerHex(s: string) {
    forall i :: 0 <= i < |s| ==> IsLowerHexDigit(s[i])
  }

  predicate AllHexDigits(s: string) {
    forall i :: 0 <= i < |s| ==> IsHexDigit(s[i])
  }

  function DigitValue(c: char): (v: nat)
    requires IsHexDigit(c)
    ensures v < 16
  {
    if '0' <= c <= '9' then c as int - '0' as int
    else if 'a' <= c <= 'f' then c as int - 'a' as int + 10
    else c as int - 'A' as int + 10
  }

  /** The lower-case digit for a value below sixteen; DigitValue reads it back. */
  function LowerDigit(v: nat): (c: char)
    requires v < 16
    ensures IsLowerHexDigit(c) && IsHexDigit(c) && DigitValue(c) == v
  {
    if v < 10 then ('0' as int + v) as char else ('a' as int + v - 10) as char
  }

  /** Two lower-case digits per byte, most significant digit first. */
  function HexOf(bs: seq<byte>): (s: string)
    ensures |s| == 2 * |bs|
    ensures IsLowerHex(s) && AllHexDigits(s)
  {
    if bs == [] then ""
    else
      var rest := HexOf(bs[1..]);
      var s := [LowerDigit(bs[0] / 16), LowerDigit(bs[0] % 16)] + rest;
      assert forall i :: 2 <= i < |s| ==> s[i] == rest[i - 2];
      s
  }

  /** The digits of byte k sit at positions 2k and 2k+1, so the hex of a suffix is a suffix of the hex. */
  lemma {:induction false} HexOfSuffix(bs: seq<byte>, k: nat)
    requires k <= |bs|
    ensures HexOf(bs)[2 * k..] == HexOf(bs[k..])
  {
    if k > 0 {
      HexOfSuffix(bs[1..], k - 1);
      assert bs[1..][k - 1..] == bs[k..];
    }
  }

  lemma {:induction false} HexOfAppend(a: seq<byte>, b: byte)
    ensures HexOf(a + [b]) == HexOf(a) + [LowerDigit(b / 16), LowerDigit(b % 16)]
  {
    if a != [] {
      assert (a + [b])[1..] == a[1..] + [b];
      HexOfAppend(a[1..], b);
    }
  }

  /**
   * Buffer.from(s, 'hex') in Node: pairs of hexadecimal digits are decoded from
   * the front until the first pair that is not two digits; that pair, everything
   * after it and an odd last digit are dropped without an error.
   */
  function BufferFromHex(s: string): (r: seq<byte>)
    ensures |r| <= |s| / 2
    decreases |s|
  {
    if |s| >= 2 && IsHexDigit(s[0]) && IsHexDigit(s[1])
    then [DigitValue(s[0]) * 16 + DigitValue(s[1])] + BufferFromHex(s[2..])
    else []
  }

  /** The two digits printed for a byte read back as that byte. */
  lemma PairValue(b: byte)
    ensures DigitValue(LowerDigit(b / 16)) * 16 + DigitValue(LowerDigit(b % 16)) == b
  {
  }

  /** The decoder reads one leading pair of digits and continues after it. */
  lemma BufferFromHexPair(high: char, low: char, t: string)
    requires IsHexDigit(high) && IsHexDigit(low)
    ensures BufferFromHex([high, low] + t) == [DigitValue(high) * 16 + DigitValue(low)] + BufferFromHex(t)
  {
    var u := [high, low] + t;
    assert u[0] == high && u[1] == low && u[2..] == t;
  }

  /** Hex text followed by anything decodes to its bytes followed by what the rest decodes to. */
  lemma {:induction false} BufferFromHexOfHex(bs: seq<byte>, rest: string)
    ensures BufferFromHex(HexOf(bs) + rest) == bs + BufferFromHex(rest)
  {
    if bs != [] {
      var b := bs[0];
      var high, low := LowerDigit(b / 16), LowerDigit(b % 16);
      var t := HexOf(bs[1..]) + rest;
      assert HexOf(bs) + rest == [high, low] + t;
      var u := [high, low] + t;
      BufferFromHexPair(high, low, t);
      PairValue(b);
      BufferFromHexOfHex(bs[1..], rest);
      var tail := BufferFromHex(rest);
      assert bs == [b] + bs[1..];
      calc {
        BufferFromHex(u);
        [b] + BufferFromHex(t);
        [b] + (bs[1..] + tail);
        ([b] + bs[1..]) + tail;
      }
    } else {
      assert HexOf(bs) + rest == rest;
    }
  }

  /**
   * The strict decoder the rlp package applies to hex text: every pair must be two
   * hexadecimal digits, otherwise the conversion fails (the package throws).
   */
  function HexToBytes(s: string): (r: Option<seq<byte>>)
    ensures r.Some? ==> 2 * |r.value| == |s|
    ensures r.Some? <==> |s| % 2 == 0 && AllHexDigits(s)
    decreases |s|
  {
    if s == [] then Some([])
    else if |s| >= 2 && IsHexDigit(s[0]) && IsHexDigit(s[1]) then
      match HexToBytes(s[2..])
      case None => None
      case Some(rest) => Some([DigitValue(s[0]) * 16 + DigitValue(s[1])] + rest)
    else None
  }

  lemma {:induction false} HexToBytesOfHex(bs: seq<byte>)
    ensures HexToBytes(HexOf(bs)) == Some(bs)
  {
    if bs != [] {
      var s := HexOf(bs);
      assert s[2..] == HexOf(bs[1..]);
      HexToBytesOfHex(bs[1..]);
      assert [bs[0]] + bs[1..] == bs;
    }
  }

  /** The rlp package's padToEven: one leading '0' when the length is odd. */
  function PadToEven(s: string): (r: string)
    ensures |r| % 2 == 0 && (|r| == |s| || |r| == |s| + 1)
    ensures r[|r| - |s|..] == s
  {
    if |s| % 2 == 1 then "0" + s else s
  }

  /** Padding with a leading zero neither adds nor removes a non-digit. */
  lemma PadToEvenDigits(s: string)
    ensures AllHexDigits(PadToEven(s)) <==> AllHexDigits(s)
  {
    var r := PadToEven(s);
    if |s| % 2 == 1 {
      assert forall i :: 0 <= i < |s| ==> r[i + 1] == s[i];
    }
  }

  /** Number.prototype.toString(16) for a non-negative integer: lower-case digits, no leading zero. */
  function NumberToHex(n: nat): (s: string)
    ensures |s| >= 1 && IsLowerHex(s) && AllHexDigits(s)
    ensures s[0] == '0' <==> n == 0
    ensures n == 0 ==> s == "0"
    decreases n
  {
    if n < 16 then [LowerDigit(n)]
    else
      var prefix := NumberToHex(n / 16);
      var s := prefix + [LowerDigit(n % 16)];
      assert forall i :: 0 <= i < |prefix| ==> s[i] == prefix[i];
      s
  }

  /** Below 16^k a number needs at most k hexadecimal digits. */
  lemma {:induction false} NumberToHexLength(n: nat, k: nat)
    requires 1 <= k && n < Pow(16, k)
    ensures |NumberToHex(n)| <= k
    decreases n
  {
    if n >= 16 {
      assert k >= 2;
      assert n / 16 < Pow(16, k - 1);
      NumberToHexLength(n / 16, k - 1);
    }
  }

  /** The value of a string of hexadecimal digits, most significant first. */
  function HexValue(s: string): nat
    requires AllHexDigits(s)
    decreases |s|
  {
    if s == [] then 0 else HexValue(s[..|s| - 1]) * 16 + DigitValue(s[|s| - 1])
  }

  lemma {:induction false} HexValueOfNumberToHex(n: nat)
    ensures HexValue(NumberToHex(n)) == n
    decreases n
  {
    if n >= 16 {
      var s := NumberToHex(n);
      assert s[..|s| - 1] == NumberToHex(n / 16);
      HexValueOfNumberToHex(n / 16);
    }
  }

  /** Leading zeros do not change the value of hexadecimal text. */
  lemma {:induction false} HexValueLeadingZeros(k: nat, s: string)
    requires AllHexDigits(s)
    ensures AllHexDigits(Repeat('0', k) + s)
    ensures HexValue(Repeat('0', k) + s) == HexValue(s)
    decreases k + |s|
  {
    var t := Repeat('0', k) + s;
    assert forall i :: 0 <= i < |t| ==> IsHexDigit(t[i]) by {
      forall i | 0 <= i < |t| ensures IsHexDigit(t[i]) {
        if i >= k { assert t[i] == s[i - k]; }
      }
    }
    if s == [] {
      if k > 0 {
        assert t == Repeat('0', k - 1) + "0";
        HexValueLeadingZeros(k - 1, "");
        assert t[..|t| - 1] == Repeat('0', k - 1) + "";
      }
    } else {
      assert t[..|t| - 1] == Repeat('0', k) + s[..|s| - 1];
      HexValueLeadingZeros(k, s[..|s| - 1]);
    }
  }

  function Repeat(c: char, k: nat): (r: string)
    ensures |r| == k && forall i :: 0 <= i < k ==> r[i] == c
  {
    seq(k, _ => c)
  }

  /** String.prototype.padStart(len, c): c repeated in front up to length len; longer text is kept. */
  function PadStart(s: string, len: nat, c: char): (r: string)
    ensures |s| >= len ==> r == s
    ensures |s| < len ==> |r| == len && r[..len - |s|] == Repeat(c, len - |s|)
    ensures r[|r| - |s|..] == s
  {
    if |s| >= len then s else Repeat(c, len - |s|) + s
  }

  /** Padding hex digits with zeros keeps them digits, keeps them lower-case, and keeps their value. */
  lemma PadStartZeros(s: string, len: nat)
    requires AllHexDigits(s)
    ensures AllHexDigits(PadStart(s, len, '0')) && HexValue(PadStart(s, len, '0')) == HexValue(s)
    ensures IsLowerHex(s) ==> IsLowerHex(PadStart(s, len, '0'))
  {
    if |s| < len {
      var zeros := Repeat('0', len - |s|);
      var t := zeros + s;
      assert PadStart(s, len, '0') == t;
      HexValueLeadingZeros(len - |s|, s);
      if IsLowerHex(s) {
        forall i | 0 <= i < |t| ensures IsLowerHexDigit(t[i]) {
          if i >= |zeros| { assert t[i] == s[i - |zeros|]; }
        }
      }
    }
  }

  function Pow(b: nat, k: nat): (r: nat)
    ensures b > 0 ==> r > 0
  {
    if k == 0 then 1 else b * Pow(b, k - 1)
  }

  /** Minimal big-endian bytes of n: empty for zero, otherwise no leading zero byte. */
  function BigEndian(n: nat): (r: seq<byte>)
    ensures r == [] <==> n == 0
    ensures r != [] ==> r[0] != 0
    decreases n
  {
    if n == 0 then [] else BigEndian(n / 256) + [n % 256]
  }

  function FromBigEndian(bs: seq<byte>): nat
    decreases |bs|
  {
    if bs == [] then 0 else FromBigEndian(bs[..|bs| - 1]) * 256 + bs[|bs| - 1]
  }

  lemma {:induction false} BigEndianRoundTrip(n: nat)
    ensures FromBigEndian(BigEndian(n)) == n
    decreases n
  {
    if n > 0 {
      var bs := BigEndian(n);
      assert bs[..|bs| - 1] == BigEndian(n / 256);
      BigEndianRoundTrip(n / 256);
    }
  }

  /** A value below 256^k takes at most k bytes. */
  lemma {:induction false} BigEndianLength(n: nat, k: nat)
    requires n < Pow(256, k)
    ensures |BigEndian(n)| <= k
    decreases k
  {
    if n > 0 {
      assert k > 0;
      BigEndianLength(n / 256, k - 1);
    }
  }

  lemma DigitsOfByte(n: nat)
    ensures (n % 256) / 16 == (n / 16) % 16
    ensures (n % 256) % 16 == n % 16
    ensures (n / 16) / 16 == n / 256
  {
    var q, r := n / 256, n % 256;
    assert n == 256 * q + r;
    assert n / 16 == 16 * q + r / 16;
    assert n % 16 == r % 16;
  }

  /** The hex of n's big-endian bytes ends with the two digits of its last byte. */
  lemma HexOfLastByte(n: nat)
    requires n > 0
    ensures HexOf(BigEndian(n)) == HexOf(BigEndian(n / 256)) + [LowerDigit((n / 16) % 16), LowerDigit(n % 16)]
  {
    DigitsOfByte(n);
    assert BigEndian(n) == BigEndian(n / 256) + [n % 256];
    HexOfAppend(BigEndian(n / 256), n % 256);
  }

  /** From 256 on, toString(16) ends with the two digits of the last byte. */
  lemma NumberToHexLastTwo(n: nat)
    requires n >= 256
    ensures NumberToHex(n) == NumberToHex(n / 256) + [LowerDigit((n / 16) % 16), LowerDigit(n % 16)]
  {
    DigitsOfByte(n);
    assert NumberToHex(n / 16) == NumberToHex(n / 256) + [LowerDigit((n / 16) % 16)];
  }

  /**
   * The rlp package writes a positive number as the bytes of its hex text, padded
   * to an even length: that is exactly its minimal big-endian form.
   */
  lemma {:induction false} NumberHexIsBigEndian(n: nat)
    requires n > 0
    ensures PadToEven(NumberToHex(n)) == HexOf(BigEndian(n))
    decreases n
  {
    if n < 256 {
      NumberHexOneByte(n);
    } else {
      var x := NumberToHex(n / 256);
      var tail := [LowerDigit((n / 16) % 16), LowerDigit(n % 16)];
      calc {
        PadToEven(NumberToHex(n));
        { NumberToHexLastTwo(n); }
        PadToEven(x + tail);
        { PadToEvenAppendPair(x, tail); }
        PadToEven(x) + tail;
        { NumberHexIsBigEndian(n / 256); }
        HexOf(BigEndian(n / 256)) + tail;
        { HexOfLastByte(n); }
        HexOf(BigEndian(n));
      }
    }
  }

  /** Two more digits do not change the parity, so the padding stays in front. */
  lemma PadToEvenAppendPair(x: string, tail: string)
    requires |tail| == 2
    ensures PadToEven(x + tail) == PadToEven(x) + tail
  {
    var y := x + tail;
    assert |y| == |x| + 2;
    if |x| % 2 == 1 {
      assert |y| % 2 == 1;
      calc {
        PadToEven(y);
        "0" + y;
        ("0" + x) + tail;
      }
    } else {
      assert |y| % 2 == 0;
    }
  }


  lemma NumberHexOneByte(n: nat)
    requires 0 < n < 256
    ensures PadToEven(NumberToHex(n)) == HexOf(BigEndian(n))
  {
    HexOfOneByte(n);
    if n < 16 {
      assert NumberToHex(n) == [LowerDigit(n % 16)];
      assert n / 16 == 0;
    } else {
      assert NumberToHex(n / 16) == [LowerDigit(n / 16)];
    }
  }

  lemma HexOfOneByte(n: nat)
    requires 0 < n < 256
    ensures HexOf(BigEndian(n)) == [LowerDigit(n / 16), LowerDigit(n % 16)]
  {
    assert BigEndian(n) == BigEndian(0) + [n];
    assert HexOf([n])[2..] == HexOf([]);
  }

  /** The UTF-8 bytes of one Unicode scalar value. */
  function Utf8Char(c: char): (r: seq<byte>)
    ensures 1 <= |r| <= 4
    ensures (c as int < 0x80) <==> |r| == 1
    ensures |r| == 1 ==> r[0] == c as int
  {
    var v := c as int;
    if v < 0x80 then [v]
    else if v < 0x800 then [0xC0 + v / 64, 0x80 + v % 64]
    else if v < 0x10000 then [0xE0 + v / 4096, 0x80 + (v / 64) % 64, 0x80 + v % 64]
    else [0xF0 + v / 262144, 0x80 + (v / 4096) % 64, 0x80 + (v / 64) % 64, 0x80 + v % 64]
  }

  function Utf8(s: string): (r: seq<byte>)
    ensures |s| <= |r| <= 4 * |s|
    ensures s != [] && s[0] as int < 0x80 ==> r[0] == s[0] as int
  {
    if s == [] then [] else Utf8Char(s[0]) + Utf8(s[1..])
  }
}
