/**
 * Recursive Length Prefix encoding (Appendix B of the Ethereum Yellow Paper) of a
 * flat list of byte strings, the only shape the bridge encodes, together with the
 * rlp package's conversion of JavaScript strings and numbers to bytes, and a
 * decoder that reads an encoded list back.
 */
module Rlp {
  import opened Wrappers
  import opened Bytes

  /** From 2^64 bytes on a length no longer fits the eight length bytes a prefix can announce. */
  const LengthLimit: nat := 0x1_0000_0000_0000_0000

  lemma LengthLimitIsPow()
    ensures Pow(256, 8) == LengthLimit
  {
  }

  /** The prefix announcing a payload of len bytes: offset 0x80 for a string, 0xc0 for a list. */
  function EncodeLength(len: nat, offset: int): (r: seq<byte>)
    requires len < LengthLimit
    requires offset == 0x80 || offset == 0xc0
    ensures 1 <= |r| <= 9
    ensures len < 56 ==> r == [offset + len]
    ensures len >= 56 ==> r[0] == offset + 55 + |r[1..]| && r[1..] == BigEndian(len)
  {
    if len < 56 then [offset + len]
    else
      LengthLimitIsPow();
      BigEndianLength(len, 8);
      var l := BigEndian(len);
      [offset + 55 + |l|] + l
  }

  /** A single byte below 0x80 stands for itself; any other string gets a length prefix. */
  function EncodeBytes(b: seq<byte>): (r: seq<byte>)
    requires |b| < LengthLimit
    ensures |r| >= 1 && |r| >= |b| && r[|r| - |b|..] == b
  {
    if |b| == 1 && b[0] < 0x80 then b else EncodeLength(|b|, 0x80) + b
  }

  predicate ItemsFit(items: seq<seq<byte>>) {
    forall i :: 0 <= i < |items| ==> |items[i]| < LengthLimit
  }

  /** The list payload: the encodings of the items, one after another. */
  function EncodeAll(items: seq<seq<byte>>): seq<byte>
    requires ItemsFit(items)
  {
    if items == [] then [] else EncodeBytes(items[0]) + EncodeAll(items[1..])
  }

  /** A list: its prefix, then its payload; None where a length does not fit a prefix. */
  function EncodeList(items: seq<seq<byte>>): (r: Option<seq<byte>>)
    ensures r.Some? <==> ItemsFit(items) && |EncodeAll(items)| < LengthLimit
    ensures r.Some? ==> |r.value| >= 1 && r.value[0] >= 0xc0
  {
    if ItemsFit(items) && |EncodeAll(items)| < LengthLimit then
      var payload := EncodeAll(items);
      Some(EncodeLength(|payload|, 0xc0) + payload)
    else None
  }

  /** Reads one string item at the front of s: its bytes and how many bytes of s it took. */
  function DecodeBytes(s: seq<byte>): (r: Option<(seq<byte>, nat)>)
    ensures r.Some? ==> 1 <= r.value.1 <= |s|
  {
    if s == [] then None
    else if s[0] < 0x80 then Some(([s[0]], 1))
    else if s[0] <= 0xb7 then
      var n := s[0] - 0x80;
      if 1 + n <= |s| then Some((s[1..1 + n], 1 + n)) else None
    else if s[0] <= 0xbf then
      var l := s[0] - 0xb7;
      if 1 + l <= |s| then
        var n := FromBigEndian(s[1..1 + l]);
        if 1 + l + n <= |s| then Some((s[1 + l..1 + l + n], 1 + l + n)) else None
      else None
    else None
  }

  /** Reads a payload that is a sequence of string items. */
  function DecodeItems(s: seq<byte>): Option<seq<seq<byte>>>
    decreases |s|
  {
    if s == [] then Some([])
    else match DecodeBytes(s)
      case None => None
      case Some((b, k)) =>
        match DecodeItems(s[k..])
        case None => None
        case Some(rest) => Some([b] + rest)
  }

  /** Reads a whole list: its header, then a payload of exactly the announced length. */
  function DecodeList(s: seq<byte>): Option<seq<seq<byte>>>
  {
    if s == [] || s[0] < 0xc0 then None
    else if s[0] <= 0xf7 then
      if 1 + (s[0] - 0xc0) == |s| then DecodeItems(s[1..]) else None
    else
      var l := s[0] - 0xf7;
      if 1 + l <= |s| && 1 + l + FromBigEndian(s[1..1 + l]) == |s| then DecodeItems(s[1 + l..]) else None
  }

  lemma DecodeBytesOfEncode(b: seq<byte>, rest: seq<byte>)
    requires |b| < LengthLimit
    ensures DecodeBytes(EncodeBytes(b) + rest) == Some((b, |EncodeBytes(b)|))
  {
    var s := EncodeBytes(b) + rest;
    if |b| == 1 && b[0] < 0x80 {
      assert s[0] == b[0] && [b[0]] == b;
    } else if |b| < 56 {
      assert s[0] == 0x80 + |b|;
      assert s[1..1 + |b|] == b;
    } else {
      DecodeLongBytesOfEncode(b, rest);
    }
  }

  /** The round trip for a string of 56 bytes or more, whose length is itself written out in big-endian bytes. */
  lemma DecodeLongBytesOfEncode(b: seq<byte>, rest: seq<byte>)
    requires 56 <= |b| < LengthLimit
    ensures DecodeBytes(EncodeBytes(b) + rest) == Some((b, |EncodeBytes(b)|))
  {
    var l := BigEndian(|b|);
    var e := EncodeBytes(b);
    assert e == [0x80 + 55 + |l|] + l + b;
    var s := e + rest;
    assert s[0] == 0xb7 + |l|;
    assert s[1..1 + |l|] == l;
    BigEndianRoundTrip(|b|);
    assert s[1 + |l|..1 + |l| + |b|] == b;
  }

  lemma {:induction false} DecodeItemsOfEncodeAll(items: seq<seq<byte>>)
    requires ItemsFit(items)
    ensures DecodeItems(EncodeAll(items)) == Some(items)
  {
    if items != [] {
      var e := EncodeBytes(items[0]);
      var tail := EncodeAll(items[1..]);
      DecodeBytesOfEncode(items[0], tail);
      assert (e + tail)[|e|..] == tail;
      DecodeItemsOfEncodeAll(items[1..]);
      assert [items[0]] + items[1..] == items;
    }
  }

  /** Round trip: decoding an encoded list gives back exactly its items, in order. */
  lemma DecodeListOfEncodeList(items: seq<seq<byte>>)
    requires EncodeList(items).Some?
    ensures DecodeList(EncodeList(items).value) == Some(items)
  {
    var payload := EncodeAll(items);
    var s := EncodeList(items).value;
    DecodeItemsOfEncodeAll(items);
    if |payload| < 56 {
      assert s[1..] == payload;
    } else {
      var l := BigEndian(|payload|);
      assert s == [0xc0 + 55 + |l|] + l + payload;
      assert 1 <= |l| <= 8;
      assert s[1..1 + |l|] == l;
      BigEndianRoundTrip(|payload|);
      assert s[1 + |l|..] == payload;
    }
  }

  /** Two lists with the same encoding are the same list. */
  lemma EncodeListInjective(a: seq<seq<byte>>, b: seq<seq<byte>>)
    requires EncodeList(a).Some? && EncodeList(a) == EncodeList(b)
    ensures a == b
  {
    DecodeListOfEncodeList(a);
    DecodeListOfEncodeList(b);
  }

  /** The JavaScript values found in the lists the bridge encodes. */
  datatype Value = Text(s: string) | Number(n: int) | Undefined

  predicate IsHexPrefixed(s: string) {
    |s| >= 2 && s[0] == '0' && s[1] == 'x'
  }

  /** '0x' text with some character after the prefix that is not a hex digit: the package throws on it. */
  predicate MalformedHex(s: string) {
    IsHexPrefixed(s) && !AllHexDigits(s[2..])
  }

  /**
   * The package's toBytes: '0x'-prefixed text is read as hexadecimal (padded to
   * an even length), other text as UTF-8; zero and undefined become no bytes, a
   * positive number its hex digits, and a negative number or a bad hex digit
   * make the package throw (None).
   */
  function ValueBytes(v: Value): (r: Option<seq<byte>>)
    ensures r.None? <==> (v.Number? && v.n < 0) || (v.Text? && MalformedHex(v.s))
  {
    PadToEvenDigits(if v.Text? && IsHexPrefixed(v.s) then v.s[2..] else "");
    PadToEvenDigits(if v.Number? && v.n > 0 then NumberToHex(v.n) else "");
    match v
    case Text(s) => if IsHexPrefixed(s) then HexToBytes(PadToEven(s[2..])) else Some(Utf8(s))
    case Number(n) =>
      if n == 0 then Some([])
      else if n < 0 then None
      else HexToBytes(PadToEven(NumberToHex(n)))
    case Undefined => Some([])
  }

  /** A number is written as its minimal big-endian bytes; only a negative one fails. */
  lemma NumberBytesAreBigEndian(n: int)
    ensures n >= 0 ==> ValueBytes(Number(n)) == Some(BigEndian(n))
    ensures n < 0 <==> ValueBytes(Number(n)).None?
  {
    if n > 0 {
      NumberHexIsBigEndian(n);
      HexToBytesOfHex(BigEndian(n));
    }
  }

  /** The byte strings of a list of values, or None if any conversion throws. */
  function ValuesBytes(vs: seq<Value>): (r: Option<seq<seq<byte>>>)
    ensures r.Some? ==> |r.value| == |vs|
    ensures r.Some? ==> forall i :: 0 <= i < |vs| ==> ValueBytes(vs[i]) == Some(r.value[i])
    ensures r.None? <==> exists i :: 0 <= i < |vs| && ValueBytes(vs[i]).None?
  {
    if vs == [] then Some([])
    else match (ValueBytes(vs[0]), ValuesBytes(vs[1..]))
      case (Some(b), Some(rest)) =>
        assert forall i :: 1 <= i < |vs| ==> vs[i] == vs[1..][i - 1];
        Some([b] + rest)
      case (None, _) => None
      case (_, None) =>
        var i :| 0 <= i < |vs[1..]| && ValueBytes(vs[1..][i]).None?;
        assert ValueBytes(vs[i + 1]).None?;
        None
  }

  /** RLP.encode over a list of values. */
  function Encode(vs: seq<Value>): (r: Option<seq<byte>>)
    ensures r.None? <==>
      || (exists k :: 0 <= k < |vs| && ValueBytes(vs[k]).None?)
      || (var items := ValuesBytes(vs).value; !(ItemsFit(items) && |EncodeAll(items)| < LengthLimit))
    ensures r.Some? ==> |r.value| >= 1 && r.value[0] >= 0xc0
  {
    match ValuesBytes(vs)
    case None => None
    case Some(items) => EncodeList(items)
  }

  /** What an encoded list decodes to: the bytes of each value, in the order given. */
  lemma DecodeEncode(vs: seq<Value>)
    requires Encode(vs).Some?
    ensures ValuesBytes(vs).Some?
    ensures DecodeList(Encode(vs).value) == ValuesBytes(vs)
  {
    DecodeListOfEncodeList(ValuesBytes(vs).value);
  }
}
