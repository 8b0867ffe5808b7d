/**
 * Rendering of a device's hardware address, as the sniffer script prints it when it lists
 * the devices found by a scan and when it announces the device it is about to follow: each
 * of the first six bytes as `"%02X"` (two upper-case hexadecimal digits, zero padded),
 * joined by colons. A parser for that shape is given as the formatter's inverse.
 */
module HexAddress {
  import opened Wrappers

  /** One byte of a hardware address. */
  type byte = x: int | 0 <= x < 256

  /** A hardware address; the script reads its entries 0 to 5 and nothing else. */
  type Address = a: seq<byte> | |a| >= 6 witness [0, 0, 0, 0, 0, 0]

  /** The characters `"%02X"` produces: decimal digits and upper-case `A` to `F`. */
  predicate IsHexDigit(c: char) {
    '0' <= c <= '9' || 'A' <= c <= 'F'
  }

  /** The upper-case hexadecimal digit for a value below sixteen. */
  function Digit(v: int): (c: char)
    requires 0 <= v < 16
    ensures IsHexDigit(c)
    ensures v < 10 <==> c <= '9'
  {
    if v < 10 then ('0' as int + v) as char else ('A' as int + (v - 10)) as char
  }

  /** The value of one upper-case hexadecimal digit. */
  function DigitValue(c: char): (v: int)
    requires IsHexDigit(c)
    ensures 0 <= v < 16
    ensures v < 10 <==> c <= '9'
  {
    if c <= '9' then c as int - '0' as int else c as int - 'A' as int + 10
  }

  /** `Digit` and `DigitValue` are inverse to each other. */
  lemma DigitRoundTrip(v: int, c: char)
    requires 0 <= v < 16 && IsHexDigit(c)
    ensures DigitValue(Digit(v)) == v
    ensures Digit(DigitValue(c)) == c
  {
  }

  /** `"%02X" % b`: exactly two digits whose hexadecimal value is `b`. */
  function FormatByte(b: byte): (s: string)
    ensures |s| == 2 && IsHexDigit(s[0]) && IsHexDigit(s[1])
    ensures 16 * DigitValue(s[0]) + DigitValue(s[1]) == b
  {
    DigitRoundTrip(b / 16, '0');
    DigitRoundTrip(b % 16, '0');
    [Digit(b / 16), Digit(b % 16)]
  }

  /** Reads back one two-digit group, or `None` if `s` is not two upper-case hex digits. */
  function ParseByte(s: string): (r: Option<byte>)
    ensures r.Some? <==> |s| == 2 && IsHexDigit(s[0]) && IsHexDigit(s[1])
  {
    if |s| == 2 && IsHexDigit(s[0]) && IsHexDigit(s[1]) then
      Some(16 * DigitValue(s[0]) + DigitValue(s[1]))
    else
      None
  }

  /** `ParseByte` undoes `FormatByte`, and accepts only what `FormatByte` produces. */
  lemma ByteRoundTrip(b: byte, s: string)
    ensures ParseByte(FormatByte(b)) == Some(b)
    ensures ParseByte(s).Some? ==> FormatByte(ParseByte(s).value) == s
  {
    if ParseByte(s).Some? {
      var hi, lo := DigitValue(s[0]), DigitValue(s[1]);
      var v := ParseByte(s).value;
      assert v / 16 == hi && v % 16 == lo;
      DigitRoundTrip(hi, s[0]);
      DigitRoundTrip(lo, s[1]);
    }
  }

  /** The groups `"%02X" % bs[0]`, ..., `"%02X" % bs[n-1]`, separated by `:`. */
  function Join(bs: seq<byte>): (s: string)
    requires |bs| > 0
    ensures |s| == 3 * |bs| - 1
    ensures forall i :: 0 <= i < |s| ==> (s[i] == ':' <==> i % 3 == 2)
    ensures forall i :: 0 <= i < |s| && i % 3 != 2 ==> IsHexDigit(s[i])
    ensures forall k :: 0 <= k < |bs| ==> s[3 * k] == FormatByte(bs[k])[0]
    ensures forall k :: 0 <= k < |bs| ==> s[3 * k + 1] == FormatByte(bs[k])[1]
    decreases |bs|
  {
    if |bs| == 1 then
      FormatByte(bs[0])
    else
      var rest := Join(bs[1..]);
      var s := FormatByte(bs[0]) + ":" + rest;
      assert forall i :: 3 <= i < |s| ==> s[i] == rest[i - 3];
      assert forall k :: 1 <= k < |bs| ==> bs[k] == bs[1..][k - 1];
      s
  }

  /** Reads `:`-separated two-digit groups back into bytes, or `None` if `s` is not of that shape. */
  function Split(s: string): (r: Option<seq<byte>>)
    ensures r.Some? ==> |r.value| > 0 && |s| == 3 * |r.value| - 1
    decreases |s|
  {
    if |s| < 2 then
      None
    else if |s| == 2 then
      match ParseByte(s)
      case None => None
      case Some(b) => Some([b])
    else if |s| >= 5 && s[2] == ':' then
      match (ParseByte(s[..2]), Split(s[3..]))
      case (Some(b), Some(bs)) => Some([b] + bs)
      case _ => None
    else
      None
  }

  /** Splitting a join gives back the bytes that were joined. */
  lemma {:induction false} JoinThenSplit(bs: seq<byte>)
    requires |bs| > 0
    ensures Split(Join(bs)) == Some(bs)
    decreases |bs|
  {
    ByteRoundTrip(bs[0], "");
    if |bs| > 1 {
      JoinThenSplit(bs[1..]);
      var s := Join(bs);
      assert s[..2] == FormatByte(bs[0]);
      assert s[2] == ':' && s[3..] == Join(bs[1..]);
      assert ParseByte(s[..2]) == Some(bs[0]);
      assert Split(s) == Some([bs[0]] + bs[1..]);
      assert [bs[0]] + bs[1..] == bs;
    } else {
      assert [bs[0]] == bs;
    }
  }

  /** Whatever splits is the join of the bytes it splits into. */
  lemma {:induction false} SplitThenJoin(s: string)
    requires Split(s).Some?
    ensures Join(Split(s).value) == s
    decreases |s|
  {
    if |s| == 2 {
      ByteRoundTrip(0, s);
    } else {
      var bs := Split(s).value;
      ByteRoundTrip(0, s[..2]);
      SplitThenJoin(s[3..]);
      assert bs[1..] == Split(s[3..]).value;
      assert s == s[..2] + ":" + s[3..];
    }
  }

  /** How the sniffer script prints an address: its first six bytes, each `"%02X"`, joined by `:`. */
  function FormatAddress(a: Address): (s: string)
    ensures |s| == 17
    ensures forall i :: 0 <= i < 17 ==> (s[i] == ':' <==> i % 3 == 2)
    ensures forall i :: 0 <= i < 17 && i % 3 != 2 ==> IsHexDigit(s[i])
    ensures forall k :: 0 <= k < 6 ==> s[3 * k..3 * k + 2] == FormatByte(a[k])
  {
    var s := Join(a[..6]);
    assert forall k :: 0 <= k < 6 ==> a[..6][k] == a[k];
    assert forall k :: 0 <= k < 6 ==> s[3 * k..3 * k + 2] == [s[3 * k], s[3 * k + 1]];
    s
  }

  /** Reads a printed address back into its six bytes, or `None` if `s` is not of that shape. */
  function ParseAddress(s: string): (r: Option<Address>)
    ensures r.Some? ==> |r.value| == 6
  {
    if |s| == 17 then
      match Split(s)
      case Some(bs) => Some(bs)
      case None => None
    else
      None
  }

  /** Parsing a printed address gives back the six bytes that were printed. */
  lemma FormatThenParse(a: Address)
    ensures ParseAddress(FormatAddress(a)) == Some(a[..6])
  {
    JoinThenSplit(a[..6]);
  }

  /** A string parses exactly when it is the printed form of the address it parses to. */
  lemma ParseThenFormat(s: string)
    ensures ParseAddress(s).Some? ==> FormatAddress(ParseAddress(s).value) == s
  {
    if ParseAddress(s).Some? {
      SplitThenJoin(s);
      var a := ParseAddress(s).value;
      assert a[..6] == a;
    }
  }
}
