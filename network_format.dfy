/**
  The formatting helpers of servers/network.h: `inet_ntoString`,
  `IPAddressFromString`, `MacAddressAsString` and `__appendString__`.

  Arduino `String` is modelled as `seq<char>`; `String (byte)` writes the
  byte in decimal and `sprintf ("%02x")` writes two lowercase hexadecimal
  digits.
 */
module NetworkFormat {
  import opened Common

  type byte = x: int | 0 <= x < 256

  function Max(a: int, b: int): int
  {
    if a < b then b else a
  }

  // ----- decimal numerals -----

  predicate IsDigit(c: char)
  {
    '0' <= c <= '9'
  }

  predicate AllDigits(s: string)
  {
    forall k :: 0 <= k < |s| ==> IsDigit(s[k])
  }

  function DigitChar(d: nat): char
    requires d < 10
  {
    ('0' as int + d) as char
  }

  /** `String (n)`: `n` in decimal, without leading zeros. */
  function DecimalString(n: nat): (s: string)
    ensures |s| >= 1 && AllDigits(s)
    decreases n
  {
    if n < 10 then [DigitChar(n)] else DecimalString(n / 10) + [DigitChar(n % 10)]
  }

  /** The decimal form has no leading zero and one to three digits for a byte. */
  lemma {:induction false} DecimalStringShape(n: nat)
    ensures var s := DecimalString(n);
            && (|s| > 1 ==> s[0] != '0')
            && (n < 10 ==> |s| == 1)
            && (n < 100 ==> |s| <= 2)
            && (n < 1000 ==> |s| <= 3)
    decreases n
  {
    if n >= 10 {
      DecimalStringShape(n / 10);
      assert DecimalString(n)[0] == DecimalString(n / 10)[0];
    }
  }

  /** The value of a decimal digit (0 for any other character, which is never asked for). */
  function DigitValue(c: char): nat
  {
    if IsDigit(c) then c as int - '0' as int else 0
  }

  /** The number a string of decimal digits denotes. */
  function DecimalValue(s: string): nat
    decreases |s|
  {
    if s == [] then 0 else DecimalValue(s[..|s| - 1]) * 10 + DigitValue(s[|s| - 1])
  }

  /** Reading back the decimal rendering of a number gives the number. */
  lemma {:induction false} DecimalRoundTrip(n: nat)
    ensures DecimalValue(DecimalString(n)) == n
    decreases n
  {
    if n >= 10 {
      DecimalRoundTrip(n / 10);
      var s := DecimalString(n);
      assert s[..|s| - 1] == DecimalString(n / 10);
    }
  }

  // ----- inet_ntoString -----

  function Pow256(k: nat): (p: nat)
    ensures p > 0
  {
    if k == 0 then 1 else 256 * Pow256(k - 1)
  }

  /**
    The byte at offset `k` of the address word in memory: the ESP32 is
    little-endian, so offset 0 holds the least significant byte.  lwIP keeps
    the address in network byte order, so offset 0 is the first component of
    the dotted form.
   */
  function AddressByte(addr: uint32, k: nat): byte
    requires k < 4
  {
    (addr / Pow256(k)) % 256
  }

  /** The four bytes at offsets 0 to 3 make up the whole word. */
  lemma AddressBytesCover(addr: uint32)
    ensures addr == AddressByte(addr, 0) + 256 * AddressByte(addr, 1) +
                    65536 * AddressByte(addr, 2) + 16777216 * AddressByte(addr, 3)
  {
    assert Pow256(1) == 256 && Pow256(2) == 65536 && Pow256(3) == 16777216;
    var q1 := addr / 256;
    var q2 := addr / 65536;
    assert q2 == q1 / 256;
    assert addr / 16777216 == q2 / 256;
    assert addr / 16777216 < 256;
  }

  /** The number of times `c` occurs in `s`. */
  function Count(s: string, c: char): nat
  {
    if s == [] then 0 else (if s[0] == c then 1 else 0) + Count(s[1..], c)
  }

  lemma {:induction false} CountAppend(a: string, b: string, c: char)
    ensures Count(a + b, c) == Count(a, c) + Count(b, c)
    decreases |a|
  {
    if a == [] {
      assert a + b == b;
    } else {
      assert (a + b)[1..] == a[1..] + b;
      CountAppend(a[1..], b, c);
    }
  }

  /** A string of digits holds no dot. */
  lemma {:induction false} DigitsHaveNoDot(s: string)
    requires AllDigits(s)
    ensures Count(s, '.') == 0
    decreases |s|
  {
    if s != [] {
      DigitsHaveNoDot(s[1..]);
    }
  }

  /** Numbers in decimal, separated by dots. */
  function DottedList(ns: seq<nat>): string
    requires |ns| >= 1
    decreases |ns|
  {
    if |ns| == 1 then DecimalString(ns[0]) else DecimalString(ns[0]) + ("." + DottedList(ns[1..]))
  }

  /** The dotted form of n numbers holds n - 1 dots, digits otherwise, and 1 to 3 digits per byte. */
  lemma {:induction false} DottedShape(ns: seq<nat>)
    requires |ns| >= 1
    ensures var s := DottedList(ns);
            && Count(s, '.') == |ns| - 1
            && (forall k :: 0 <= k < |s| ==> IsDigit(s[k]) || s[k] == '.')
            && |s| >= 2 * |ns| - 1
            && ((forall k :: 0 <= k < |ns| ==> ns[k] < 256) ==> |s| <= 4 * |ns| - 1)
    decreases |ns|
  {
    var d := DecimalString(ns[0]);
    DigitsHaveNoDot(d);
    DecimalStringShape(ns[0]);
    if |ns| > 1 {
      var t := DottedList(ns[1..]);
      DottedShape(ns[1..]);
      CountAppend(".", t, '.');
      CountAppend(d, "." + t, '.');
      var s := DottedList(ns);
      assert s == d + ("." + t);
      assert forall k :: 0 <= k < |d| ==> s[k] == d[k];
      assert forall k :: |d| < k < |s| ==> s[k] == t[k - |d| - 1];
      if forall k :: 0 <= k < |ns| ==> ns[k] < 256 {
        assert ns[0] < 256;
        assert forall k :: 0 <= k < |ns[1..]| ==> ns[1..][k] == ns[k + 1];
      }
    }
  }

  /**
    `inet_ntoString (addr)`: the four bytes of the address, in memory order,
    in decimal, separated by dots.
   */
  function InetNtoString(addr: uint32): (s: string)
    ensures 7 <= |s| <= 15
    ensures Count(s, '.') == 3
    ensures forall k :: 0 <= k < |s| ==> IsDigit(s[k]) || s[k] == '.'
  {
    var ns := [AddressByte(addr, 0) as nat, AddressByte(addr, 1), AddressByte(addr, 2), AddressByte(addr, 3)];
    DottedShape(ns);
    DottedList(ns)
  }

  // ----- IPAddressFromString -----

  /** An `IPAddress`: four bytes, first component first. */
  datatype IPAddress = IPAddress(b0: byte, b1: byte, b2: byte, b3: byte)

  /** `IPAddress (0, 42, 42, 42)`, the answer to a string that does not scan. */
  const INVALID_ADDRESS: IPAddress := IPAddress(0, 42, 42, 42)

  /** The number of decimal digits `s` starts with. */
  function DigitRun(s: string): (n: nat)
    ensures n <= |s|
    decreases |s|
  {
    if s != [] && IsDigit(s[0]) then 1 + DigitRun(s[1..]) else 0
  }

  /**
    `sscanf (s, "%i.%i.%i...")` with `count` conversions, over decimal
    numerals: a number, then for each further conversion a dot and a number.
    None when fewer than `count` numbers scan; whatever follows the last one
    is ignored.
   */
  function ScanFields(s: string, count: nat): (r: Option<seq<nat>>)
    requires count >= 1
    ensures r.Some? ==> |r.value| == count
    decreases count
  {
    var n := DigitRun(s);
    if n == 0 then None
    else
      var v := DecimalValue(s[..n]);
      if count == 1 then Some([v])
      else if n < |s| && s[n] == '.' then
        match ScanFields(s[n + 1..], count - 1)
        case None => None
        case Some(vs) => Some([v] + vs)
      else None
  }

  /** The conversion of a scanned `int` to a `uint8_t` parameter: the value modulo 256. */
  function ToUint8(v: nat): (b: byte)
    ensures v < 256 ==> b == v
    ensures (v - b) % 256 == 0
  {
    v % 256
  }

  /**
    `IPAddressFromString (s)`: the four scanned numbers, each truncated to a
    byte as the `IPAddress` constructor's `uint8_t` parameters do, or
    0.42.42.42 when fewer than four scan.
   */
  function IPAddressFromString(s: string): (a: IPAddress)
    ensures a != INVALID_ADDRESS ==> ScanFields(s, 4).Some?
  {
    match ScanFields(s, 4)
    case None => INVALID_ADDRESS
    case Some(f) => IPAddress(ToUint8(f[0]), ToUint8(f[1]), ToUint8(f[2]), ToUint8(f[3]))
  }

  /** Scanning a decimal numeral followed by something that is not a digit reads the numeral's value. */
  lemma ScanNumeral(n: nat, rest: string)
    requires rest == [] || !IsDigit(rest[0])
    ensures var s := DecimalString(n) + rest;
            DigitRun(s) == |DecimalString(n)| && DecimalValue(s[..DigitRun(s)]) == n
  {
    var d := DecimalString(n);
    var s := d + rest;
    DigitRunOfDigits(d, rest);
    assert s[..|d|] == d;
    DecimalRoundTrip(n);
  }

  lemma {:induction false} DigitRunOfDigits(d: string, rest: string)
    requires AllDigits(d)
    requires rest == [] || !IsDigit(rest[0])
    ensures DigitRun(d + rest) == |d|
    decreases |d|
  {
    if d != [] {
      assert (d + rest)[1..] == d[1..] + rest;
      DigitRunOfDigits(d[1..], rest);
    } else {
      assert d + rest == rest;
    }
  }

  /** One more dotted numeral in front adds its value in front of the scanned fields. */
  lemma ScanDottedNumeral(n: nat, rest: string, count: nat)
    requires count >= 2
    ensures ScanFields(rest, count - 1).None? ==> ScanFields(DecimalString(n) + ("." + rest), count).None?
    ensures ScanFields(rest, count - 1).Some? ==>
              ScanFields(DecimalString(n) + ("." + rest), count) == Some([n] + ScanFields(rest, count - 1).value)
  {
    var d := DecimalString(n);
    var s := d + ("." + rest);
    ScanNumeral(n, "." + rest);
    var k := DigitRun(s);
    assert k == |d| && k < |s| && s[k] == '.';
    assert s[k + 1..] == rest;
    assert DecimalValue(s[..k]) == n;
  }

  /** The dotted form of two or more numbers, followed by text, split after the first dot. */
  lemma DottedListSplit(ns: seq<nat>, rest: string)
    requires |ns| >= 2
    ensures DottedList(ns) + rest == DecimalString(ns[0]) + ("." + (DottedList(ns[1..]) + rest))
  {
    var d := DecimalString(ns[0]);
    var t := DottedList(ns[1..]);
    assert DottedList(ns) == d + ("." + t);
    AppendAssociative(d, "." + t, rest);
    AppendAssociative(".", t, rest);
  }

  /** A single numeral before non-digit text scans as itself. */
  lemma ScanDottedOne(ns: seq<nat>, rest: string)
    requires |ns| == 1
    requires rest == [] || !IsDigit(rest[0])
    ensures ScanFields(DottedList(ns) + rest, 1) == Some(ns)
  {
    ScanNumeral(ns[0], rest);
    assert DottedList(ns) + rest == DecimalString(ns[0]) + rest;
    assert [ns[0]] == ns;
  }

  /** If the dotted form of all numbers but the first scans, so does the whole. */
  lemma ScanDottedStep(ns: seq<nat>, rest: string)
    requires |ns| >= 2
    requires ScanFields(DottedList(ns[1..]) + rest, |ns| - 1) == Some(ns[1..])
    ensures ScanFields(DottedList(ns) + rest, |ns|) == Some(ns)
  {
    var x := DottedList(ns[1..]) + rest;
    var vs := ns[1..];
    assert ScanFields(DecimalString(ns[0]) + ("." + x), |ns|) == Some(ns) by {
      ScanDottedNumeral(ns[0], x, |ns|);
      assert [ns[0]] + vs == ns;
    }
    DottedListSplit(ns, rest);
  }

  /** Scanning the dotted form of n numbers, before any non-digit text, reads the n numbers. */
  lemma {:induction false} ScanDotted(ns: seq<nat>, rest: string)
    requires |ns| >= 1
    requires rest == [] || !IsDigit(rest[0])
    ensures ScanFields(DottedList(ns) + rest, |ns|) == Some(ns)
    decreases |ns|
  {
    if |ns| == 1 {
      ScanDottedOne(ns, rest);
    } else {
      ScanDotted(ns[1..], rest);
      ScanDottedStep(ns, rest);
    }
  }

  /**
    The partner of inet_ntoString: IPAddressFromString reads its result back
    as the same four bytes, whatever non-digit text follows.
   */
  lemma IPAddressRoundTrip(addr: uint32, rest: string)
    requires rest == [] || !IsDigit(rest[0])
    ensures IPAddressFromString(InetNtoString(addr) + rest) ==
              IPAddress(AddressByte(addr, 0), AddressByte(addr, 1), AddressByte(addr, 2), AddressByte(addr, 3))
  {
    var ns := [AddressByte(addr, 0) as nat, AddressByte(addr, 1), AddressByte(addr, 2), AddressByte(addr, 3)];
    assert InetNtoString(addr) == DottedList(ns);
    ScanDotted(ns, rest);
    assert ScanFields(InetNtoString(addr) + rest, 4) == Some(ns);
  }

  /**
    Scanning stops with too few numbers when the dotted form of n numbers is
    followed by neither a digit nor a dot and more than n are asked for.
   */
  lemma {:induction false} ScanShort(ns: seq<nat>, rest: string, count: nat)
    requires 1 <= |ns| < count
    requires rest == [] || (!IsDigit(rest[0]) && rest[0] != '.')
    ensures ScanFields(DottedList(ns) + rest, count).None?
    decreases |ns|
  {
    if |ns| == 1 {
      ScanShortOne(ns, rest, count);
    } else {
      ScanShort(ns[1..], rest, count - 1);
      ScanShortStep(ns, rest, count);
    }
  }

  /** If the numbers after the first do not scan as one fewer, the whole does not scan. */
  lemma ScanShortStep(ns: seq<nat>, rest: string, count: nat)
    requires 2 <= |ns| < count
    requires ScanFields(DottedList(ns[1..]) + rest, count - 1).None?
    ensures ScanFields(DottedList(ns) + rest, count).None?
  {
    DottedListSplit(ns, rest);
    ScanDottedNumeral(ns[0], DottedList(ns[1..]) + rest, count);
  }

  /** A single numeral followed by neither a digit nor a dot does not scan as two or more. */
  lemma ScanShortOne(ns: seq<nat>, rest: string, count: nat)
    requires |ns| == 1 && count >= 2
    requires rest == [] || (!IsDigit(rest[0]) && rest[0] != '.')
    ensures ScanFields(DottedList(ns) + rest, count).None?
  {
    var d := DecimalString(ns[0]);
    var s := d + rest;
    ScanNumeral(ns[0], rest);
    assert DottedList(ns) + rest == s;
    assert DigitRun(s) == |d|;
    assert |d| < |s| ==> s[|d|] == rest[0];
  }

  /** An address with fewer than four numbers gives the fallback 0.42.42.42. */
  lemma FewerThanFourFallBack(ns: seq<nat>, rest: string)
    requires 1 <= |ns| < 4
    requires rest == [] || (!IsDigit(rest[0]) && rest[0] != '.')
    ensures IPAddressFromString(DottedList(ns) + rest) == INVALID_ADDRESS
  {
    ScanShort(ns, rest, 4);
  }

  /** Fewer than four numbers give the fallback address. */
  lemma ThreeNumbersFallBack()
    ensures IPAddressFromString("10.0.1") == INVALID_ADDRESS
  {
    var s := "10.0.1";
    assert DigitRun(s[5..]) == 1;
    assert ScanFields(s[5..], 2) == None;
    assert DigitRun(s[3..]) == 1;
    assert s[3..][2..] == s[5..];
    assert ScanFields(s[3..], 3) == None;
    assert DigitRun(s) == 2;
    assert s[3..] == s[2 + 1..];
  }

  // ----- MacAddressAsString -----

  /** A lowercase hexadecimal digit. */
  function HexDigit(d: nat): char
    requires d < 16
  {
    if d < 10 then ('0' as int + d) as char else ('a' as int + d - 10) as char
  }

  /** `sprintf (c, "%02x", b)`: two lowercase hexadecimal digits. */
  function Hex2(b: byte): string
  {
    [HexDigit(b / 16), HexDigit(b % 16)]
  }

  /** The value of a lowercase hexadecimal digit. */
  function HexValue(c: char): nat
  {
    if '0' <= c <= '9' then c as int - '0' as int
    else if 'a' <= c <= 'f' then c as int - 'a' as int + 10
    else 0
  }

  /** A lowercase hexadecimal digit character. */
  predicate IsHexDigit(c: char)
  {
    ('0' <= c <= '9') || ('a' <= c <= 'f')
  }

  /** The two digits are lowercase hexadecimal and read back as the byte. */
  lemma Hex2RoundTrip(b: byte)
    ensures var h := Hex2(b);
            |h| == 2 && 16 * HexValue(h[0]) + HexValue(h[1]) == b
    ensures IsHexDigit(Hex2(b)[0]) && IsHexDigit(Hex2(b)[1])
  {
  }

  /** Where the digits of byte `i` start: after two digits per byte and a colon for each of the first five. */
  function MacPosition(i: nat): nat
  {
    2 * i + Min(i, 5)
  }

  /** The digits of byte `i`, and its colon, lie before where byte `n` starts. */
  lemma MacPositionBelow(i: nat, n: nat)
    requires i < n
    ensures MacPosition(i) + 2 <= MacPosition(n)
    ensures i < 5 ==> MacPosition(i) + 2 < MacPosition(n)
  {
  }

  /** The text for the first `n` bytes: two hex digits per byte, each of the first five followed by `:`. */
  function MacText(mac: seq<byte>, n: nat): string
    requires n <= |mac|
  {
    if n == 0 then "" else MacText(mac, n - 1) + Hex2(mac[n - 1]) + (if n - 1 < 5 then ":" else "")
  }

  /** The layout of `MacText`: its length, the digits of byte `i` at `MacPosition(i)`, and the colons. */
  lemma {:induction false} MacTextLayout(mac: seq<byte>, n: nat)
    requires n <= |mac|
    ensures |MacText(mac, n)| == MacPosition(n)
    ensures forall i :: 0 <= i < n ==> MacText(mac, n)[MacPosition(i)] == Hex2(mac[i])[0]
    ensures forall i :: 0 <= i < n ==> MacText(mac, n)[MacPosition(i) + 1] == Hex2(mac[i])[1]
    ensures forall i :: 0 <= i < Min(n, 5) ==> MacText(mac, n)[MacPosition(i) + 2] == ':'
  {
    if n > 0 {
      var t := MacText(mac, n - 1);
      var s := MacText(mac, n);
      MacTextLayout(mac, n - 1);
      assert s == t + Hex2(mac[n - 1]) + (if n - 1 < 5 then ":" else "");
      forall i | 0 <= i < n - 1
        ensures s[MacPosition(i)] == t[MacPosition(i)] && s[MacPosition(i) + 1] == t[MacPosition(i) + 1]
      {
        MacPositionBelow(i, n - 1);
      }
      forall i | 0 <= i < Min(n - 1, 5)
        ensures s[MacPosition(i) + 2] == t[MacPosition(i) + 2]
      {
        MacPositionBelow(i, n - 1);
      }
    }
  }

  /** Two hex digits hold no colon. */
  lemma HexHasNoColon(b: byte)
    ensures Count(Hex2(b), ':') == 0
  {
    var h := Hex2(b);
    Hex2RoundTrip(b);
    assert h[1..][1..] == [];
    assert Count(h[1..][1..], ':') == 0;
    assert h[1..][0] == h[1] && h[1] != ':';
    assert Count(h[1..], ':') == 0;
    assert h[0] != ':';
  }

  /** The text for `n` bytes holds one colon for each of the first five bytes and no other. */
  lemma {:induction false} MacTextColons(mac: seq<byte>, n: nat)
    requires n <= |mac|
    ensures Count(MacText(mac, n), ':') == Min(n, 5)
  {
    if n > 0 {
      MacTextColons(mac, n - 1);
      var h := Hex2(mac[n - 1]);
      var colon := if n - 1 < 5 then ":" else "";
      HexHasNoColon(mac[n - 1]);
      CountAppend(MacText(mac, n - 1), h, ':');
      CountAppend(MacText(mac, n - 1) + h, colon, ':');
    }
  }

  /** A six-byte hardware address gives 17 characters: six digit pairs and five colons. */
  lemma SixByteMac(mac: seq<byte>)
    requires |mac| == 6
    ensures |MacText(mac, 6)| == 17 && Count(MacText(mac, 6), ':') == 5
  {
    MacTextLayout(mac, 6);
    MacTextColons(mac, 6);
  }

  /**
    `MacAddressAsString (MacAddress, addressLength)`: each of the first
    `addressLength` bytes as two hex digits, followed by `:` for the bytes
    with index below 5 (so a six-byte address gets five colons and no
    trailing one).
   */
  method MacAddressAsString(mac: seq<byte>, addressLength: byte) returns (s: string)
    requires addressLength <= |mac|
    ensures s == MacText(mac, addressLength)
    ensures |s| == 2 * addressLength + Min(addressLength, 5)
    ensures forall i :: 0 <= i < addressLength ==> s[MacPosition(i)] == Hex2(mac[i])[0]
    ensures forall i :: 0 <= i < addressLength ==> s[MacPosition(i) + 1] == Hex2(mac[i])[1]
    ensures forall i :: 0 <= i < Min(addressLength, 5) ==> s[MacPosition(i) + 2] == ':'
    ensures Count(s, ':') == Min(addressLength, 5)
  {
    s := "";
    var i: byte := 0;
    while i < addressLength
      invariant i <= addressLength
      invariant s == MacText(mac, i)
    {
      s := s + Hex2(mac[i]);
      if i < 5 {
        s := s + ":";
      }
      i := i + 1;
    }
    MacTextLayout(mac, addressLength);
    MacTextColons(mac, addressLength);
  }

  // ----- __appendString__ -----

  /** `s` padded on the right with spaces to length `n`, or `s` itself when it is long enough. */
  function Padded(s: string, n: nat): (r: string)
    decreases n - |s|
  {
    if |s| < n then Padded(s + " ", n) else s
  }

  /** Padding keeps `s` as the prefix, adds only spaces and reaches length `max(|s|, n)`. */
  lemma {:induction false} PaddedShape(s: string, n: nat)
    ensures |Padded(s, n)| == Max(|s|, n)
    ensures Padded(s, n)[..|s|] == s
    ensures forall k :: |s| <= k < |Padded(s, n)| ==> Padded(s, n)[k] == ' '
    decreases n - |s|
  {
    if |s| < n {
      PaddedShape(s + " ", n);
      var r := Padded(s, n);
      assert r[..|s| + 1][..|s|] == r[..|s|];
    }
  }

  /** Padding twice to the same length is padding once. */
  lemma PaddedIdempotent(s: string, n: nat)
    ensures Padded(Padded(s, n), n) == Padded(s, n)
  {
    PaddedShape(s, n);
  }

  /**
    `__appendString__ (s, toLength)`: appends spaces while `s.length ()` is
    below `toLength`.  The comparison is between `unsigned int` and `int`, so
    C converts `toLength` to unsigned: a negative length is taken modulo 2^32.
   */
  method AppendString(s: string, toLength: int) returns (r: string)
    ensures r == Padded(s, toLength % TWO_32)
    ensures toLength % TWO_32 <= |s| ==> r == s
  {
    var target := toLength % TWO_32;
    r := s;
    while |r| < target
      invariant Padded(r, target) == Padded(s, target)
      decreases target - |r|
    {
      r := r + " ";
    }
  }
}
