/**
 * `random_mac`: a table prefix followed by three random octets written as
 * two lower-case hex digits. The random choices are passed in as a `Draw`.
 */
module Generator {
  import opened Text
  import opened Vendor
  import opened MacFormat

  type Octet = x: int | 0 <= x < 256

  type PrefixIndex = i: nat | i < |VendorPrefixes|

  /** What one call of `random_mac` draws: the `choice` among the table keys and three `randint(0, 255)`. */
  datatype Draw = Draw(prefix: PrefixIndex, a: Octet, b: Octet, c: Octet)

  function HexDigitValue(c: char): (v: int)
    requires IsHexDigit(c)
    ensures 0 <= v < 16
  {
    if '0' <= c <= '9' then c as int - '0' as int
    else if 'a' <= c <= 'f' then c as int - 'a' as int + 10
    else c as int - 'A' as int + 10
  }

  function LowerHexDigit(d: int): (c: char)
    requires 0 <= d < 16
    ensures IsLowerHexDigit(c) && HexDigitValue(c) == d
  {
    if d < 10 then ('0' as int + d) as char else ('a' as int + d - 10) as char
  }

  /** `f"{n:02x}"`: two lower-case hex digits that read back as `n`. */
  function Hex2(n: Octet): (h: string)
    ensures |h| == 2 && IsLowerHexDigit(h[0]) && IsLowerHexDigit(h[1])
    ensures HexDigitValue(h[0]) * 16 + HexDigitValue(h[1]) == n
  {
    [LowerHexDigit(n / 16), LowerHexDigit(n % 16)]
  }

  /** `":".join(prefix.split(":") + suffix)` for the drawn prefix and octets. */
  function RandomMac(d: Draw): string
  {
    Join(Split(VendorPrefixes[d.prefix].0) + [Hex2(d.a), Hex2(d.b), Hex2(d.c)])
  }

  /** The value of the k-th octet (0 to 5) of an address in canonical shape. */
  function OctetAt(mac: string, k: nat): (v: int)
    requires MacShape(mac) && k < 6
    ensures 0 <= v < 256
  {
    assert (3 * k) % 3 == 0 && (3 * k + 1) % 3 == 1;
    HexDigitValue(mac[3 * k]) * 16 + HexDigitValue(mac[3 * k + 1])
  }

  /** Every table key is three upper-case hex pairs joined by ':'. */
  lemma KeyShape(i: PrefixIndex)
    ensures forall j :: 0 <= j < |VendorPrefixes[i].0| ==>
      if j % 3 == 2 then VendorPrefixes[i].0[j] == ':' else IsHexDigit(VendorPrefixes[i].0[j])
  {
    TableKeys();
    assert IsKey(VendorPrefixes[i].0);
  }

  /** Appending three fields to a split prefix and joining adds them after one separator each. */
  lemma JoinSplitThenThree(key: string, x: string, y: string, z: string)
    ensures Join(Split(key) + [x, y, z]) == key + ":" + x + ":" + y + ":" + z
  {
    var suffix := [x, y, z];
    JoinAppend(Split(key), suffix);
    JoinSplit(key);
    assert suffix[1..] == [y, z] && suffix[1..][1..] == [z];
    assert Join([z]) == z;
    assert Join([y, z]) == y + ":" + z;
    assert Join(suffix) == x + ":" + (y + ":" + z);
  }

  /** The generated address is the key, then the three octets, separated by ':'. */
  lemma RandomMacLayout(d: Draw)
    ensures RandomMac(d) == VendorPrefixes[d.prefix].0 + ":" + Hex2(d.a) + ":" + Hex2(d.b) + ":" + Hex2(d.c)
  {
    JoinSplitThenThree(VendorPrefixes[d.prefix].0, Hex2(d.a), Hex2(d.b), Hex2(d.c));
  }

  /** Two lower-case hex digits. */
  predicate IsHexPair(h: string)
  {
    |h| == 2 && IsLowerHexDigit(h[0]) && IsLowerHexDigit(h[1])
  }

  /** A three-pair prefix followed by three lower-case pairs has the canonical shape. */
  lemma {:induction false} LayoutShape(key: string, x: string, y: string, z: string)
    requires PairsShape(key, 2)
    requires IsHexPair(x) && IsHexPair(y) && IsHexPair(z)
    ensures var r := key + ":" + x + ":" + y + ":" + z;
      && MacShape(r) && r[..8] == key && r[8] == ':'
      && r[9..11] == x && r[12..14] == y && r[15..17] == z
      && forall j :: 9 <= j < 17 && j % 3 != 2 ==> IsLowerHexDigit(r[j])
  {
    var r := key + ":" + x + ":" + y + ":" + z;
    assert |r| == 17;
    forall j | 0 <= j < 17
      ensures if j % 3 == 2 then r[j] == ':' else IsHexDigit(r[j])
      ensures 9 <= j && j % 3 != 2 ==> IsLowerHexDigit(r[j])
    {
      if j < 8 {
        assert r[j] == key[j];
      } else if j == 8 || j == 11 || j == 14 {
      } else if j < 11 {
        assert r[j] == x[j - 9];
      } else if j < 14 {
        assert r[j] == y[j - 12];
      } else {
        assert r[j] == z[j - 15];
      }
    }
    assert r[..8] == key;
    assert r[9..11] == x && r[12..14] == y && r[15..17] == z;
  }

  /**
   * Every generated address satisfies `ValidMacFormat`; its first eight
   * characters are the drawn key, its last three fields are lower-case hex,
   * and those fields read back as the drawn octets.
   */
  lemma RandomMacShape(d: Draw)
    ensures MacShape(RandomMac(d)) && ValidMacFormat(RandomMac(d))
    ensures RandomMac(d)[..8] == VendorPrefixes[d.prefix].0 && RandomMac(d)[8] == ':'
    ensures forall j :: 9 <= j < 17 && j % 3 != 2 ==> IsLowerHexDigit(RandomMac(d)[j])
    ensures OctetAt(RandomMac(d), 3) == d.a && OctetAt(RandomMac(d), 4) == d.b && OctetAt(RandomMac(d), 5) == d.c
  {
    TableFacts();
    KeyShape(d.prefix);
    RandomMacLayout(d);
    var r := RandomMac(d);
    LayoutShape(VendorPrefixes[d.prefix].0, Hex2(d.a), Hex2(d.b), Hex2(d.c));
    ValidMacFormatIff(r);
    assert r[9] == Hex2(d.a)[0] && r[10] == Hex2(d.a)[1];
    assert r[12] == Hex2(d.b)[0] && r[13] == Hex2(d.b)[1];
    assert r[15] == Hex2(d.c)[0] && r[16] == Hex2(d.c)[1];
  }

  /** Every generated address resolves to the vendor of its drawn key, never to "Unknown". */
  lemma RandomMacVendor(d: Draw)
    ensures GetVendor(RandomMac(d)) == VendorPrefixes[d.prefix].1
    ensures GetVendor(RandomMac(d)) != Unknown
  {
    TableFacts();
    RandomMacShape(d);
    var r := RandomMac(d);
    var key := VendorPrefixes[d.prefix].0;
    assert Upper(r)[..8] == Upper(r[..8]);
    assert Upper(r)[8] == ':';
    VendorIff(r, d.prefix);
  }
}
