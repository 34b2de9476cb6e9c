/**
 `BytesToHexString`: every byte, promoted to `int`, is written to an
 `ostringstream` in `std::hex` with `std::setw(2)` and `std::setfill('0')`, that
 is as a lower-case base-16 numeral padded on the left with `'0'` to two
 characters.
 */
module Hex {
  import opened CppString

  /** The digits `std::hex` writes, in value order. */
  const HexDigits: string := "0123456789abcdef"

  /** The base-16 numeral `std::hex` writes for `n`: lower case, no leading zeros. */
  function Numeral(n: nat): string
    decreases n
  {
    if n < 16 then [HexDigits[n]] else Numeral(n / 16) + [HexDigits[n % 16]]
  }

  /** `std::setw(width)` with `std::setfill(fill)`: `s` padded on the left up to `width`. */
  function PadLeft(s: string, width: nat, fill: char): string
  {
    if |s| >= width then s else seq(width - |s|, _ => fill) + s
  }

  /** The characters `chrome_decrypt.cpp` line 158 writes for one byte. */
  function FormatByte(b: byte): string
  {
    PadLeft(Numeral(b as int), 2, '0')
  }

  /** What `BytesToHexString(b, |b|)` returns: each byte formatted, in order. */
  function Hex(b: seq<byte>): string
    decreases |b|
  {
    if |b| == 0 then [] else Hex(b[..|b| - 1]) + FormatByte(b[|b| - 1])
  }

  /**
   `BytesToHexString`, `chrome_decrypt.cpp` lines 154-160. The C++ takes the address of the bytes and a count and does
   not check that `size` bytes are there; here the caller must supply them.
   */
  method BytesToHexString(byteArray: seq<byte>, size: nat) returns (oss: string)
    requires size <= |byteArray|
    ensures oss == Hex(byteArray[..size])
    ensures |oss| == 2 * size
    ensures forall k :: 0 <= k < size ==>
              oss[2 * k] == HexDigits[byteArray[k] / 16] && oss[2 * k + 1] == HexDigits[byteArray[k] % 16]
  {
    oss := [];
    for i := 0 to size
      invariant oss == Hex(byteArray[..i])
    {
      assert byteArray[..i + 1][..i] == byteArray[..i];
      oss := oss + FormatByte(byteArray[i]);
    }
    HexLength(byteArray[..size]);
    forall k | 0 <= k < size
      ensures oss[2 * k] == HexDigits[byteArray[k] / 16] && oss[2 * k + 1] == HexDigits[byteArray[k] % 16]
    {
      HexAt(byteArray[..size], k);
    }
  }

  /** Every byte gives exactly two characters: its high nibble, then its low nibble. */
  lemma FormatByteNibbles(b: byte)
    ensures FormatByte(b) == [HexDigits[b / 16], HexDigits[b % 16]]
  {
    if b >= 16 {
      assert Numeral(b as int / 16) == [HexDigits[b / 16]];
    }
  }

  /** The string is twice as long as the bytes. */
  lemma {:induction false} HexLength(b: seq<byte>)
    ensures |Hex(b)| == 2 * |b|
    decreases |b|
  {
    if |b| > 0 {
      HexLength(b[..|b| - 1]);
      FormatByteNibbles(b[|b| - 1]);
    }
  }

  /** Characters `2k` and `2k + 1` are the high and low nibble of byte `k`. */
  lemma {:induction false} HexAt(b: seq<byte>, k: nat)
    requires k < |b|
    ensures |Hex(b)| == 2 * |b|
    ensures Hex(b)[2 * k] == HexDigits[b[k] / 16]
    ensures Hex(b)[2 * k + 1] == HexDigits[b[k] % 16]
    decreases |b|
  {
    var front := b[..|b| - 1];
    HexLength(b);
    HexLength(front);
    FormatByteNibbles(b[|b| - 1]);
    if k < |b| - 1 {
      HexAt(front, k);
      assert front[k] == b[k];
    }
  }

  /** `c` is one of `0-9a-f`. */
  predicate IsLowerHexDigit(c: char)
  {
    '0' <= c <= '9' || 'a' <= c <= 'f'
  }

  lemma DigitIsLowerHex(v: nat)
    requires v < 16
    ensures IsLowerHexDigit(HexDigits[v])
  {
  }

  /** Only the characters `0-9a-f` appear. */
  lemma HexDigitsOnly(b: seq<byte>)
    ensures forall i :: 0 <= i < |Hex(b)| ==> IsLowerHexDigit(Hex(b)[i])
  {
    HexLength(b);
    forall i | 0 <= i < |Hex(b)|
      ensures IsLowerHexDigit(Hex(b)[i])
    {
      HexCharIsDigit(b, i / 2, i);
    }
  }

  lemma HexCharIsDigit(b: seq<byte>, k: nat, i: nat)
    requires k < |b| && (i == 2 * k || i == 2 * k + 1)
    ensures i < |Hex(b)| && IsLowerHexDigit(Hex(b)[i])
  {
    HexAt(b, k);
    DigitIsLowerHex(b[k] as int / 16);
    DigitIsLowerHex(b[k] as int % 16);
  }

  /** The value of a hexadecimal digit, by ranges; 0 for any other character. */
  function DigitValue(c: char): (v: nat)
    ensures v < 16
  {
    if '0' <= c <= '9' then c as int - '0' as int
    else if 'a' <= c <= 'f' then c as int - 'a' as int + 10
    else 0
  }

  lemma DigitValueOfDigit(v: nat)
    requires v < 16
    ensures DigitValue(HexDigits[v]) == v
  {
  }

  /** Reads back two characters per byte, high nibble first. */
  function ParseHex(s: string): seq<byte>
    decreases |s|
  {
    if |s| < 2 then []
    else ParseHex(s[..|s| - 2]) + [(DigitValue(s[|s| - 2]) * 16 + DigitValue(s[|s| - 1])) as byte]
  }

  /** Round trip: the hex string gives the bytes back, so different bytes never print alike. */
  lemma {:induction false} ParseHexOfHex(b: seq<byte>)
    ensures ParseHex(Hex(b)) == b
    decreases |b|
  {
    if |b| > 0 {
      var front, last := b[..|b| - 1], b[|b| - 1];
      ParseLastByte(Hex(front), last);
      ParseHexOfHex(front);
      assert b == front + [last];
    }
  }

  /** The two characters written for `x` at the end of a string read back as `x`. */
  lemma ParseLastByte(t: string, x: byte)
    ensures ParseHex(t + FormatByte(x)) == ParseHex(t) + [x]
  {
    var s := t + FormatByte(x);
    FormatByteNibbles(x);
    assert s[..|s| - 2] == t;
    DigitValueOfDigit(x as int / 16);
    DigitValueOfDigit(x as int % 16);
  }

  lemma HexInjective(a: seq<byte>, b: seq<byte>)
    requires Hex(a) == Hex(b)
    ensures a == b
  {
    ParseHexOfHex(a);
    ParseHexOfHex(b);
  }
}
