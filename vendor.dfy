/**
 * `get_vendor`: the vendor name of an address, from the first three
 * colon-separated fields of its upper-cased form and the fixed prefix table.
 */
module Vendor {
  import opened Wrappers
  import opened Text

  /** `VENDOR_PREFIXES`, in its insertion order (the order `random_mac` draws from). */
  const VendorPrefixes: seq<(string, string)> :=
    [("00:14:22", "Dell"), ("00:40:96", "Cisco"), ("AC:DE:48", "Private")]

  /** The name reported for a prefix the table does not hold. */
  const Unknown: string := "Unknown"

  /** `dict.get(key)` on a table given as its list of entries. */
  function Lookup(table: seq<(string, string)>, key: string): (r: Option<string>)
    ensures r.None? <==> forall i :: 0 <= i < |table| ==> table[i].0 != key
    ensures r.Some? ==> exists i :: 0 <= i < |table| && table[i] == (key, r.value)
    decreases |table|
  {
    if table == [] then None
    else if table[0].0 == key then Some(table[0].1)
    else
      var r := Lookup(table[1..], key);
      assert r.Some? ==> exists i :: 1 <= i < |table| && table[i] == (key, r.value) by {
        if r.Some? {
          var i :| 0 <= i < |table[1..]| && table[1..][i] == (key, r.value);
          assert table[i + 1] == (key, r.value);
        }
      }
      r
  }

  /** `":".join(mac.upper().split(":")[:3])` */
  function PrefixKey(mac: string): string
  {
    Join(Take(Split(Upper(mac)), 3))
  }

  /** `get_vendor(mac)`: a name from the table, or "Unknown". */
  function GetVendor(mac: string): (vendor: string)
    ensures vendor == Unknown || exists i :: 0 <= i < |VendorPrefixes| && VendorPrefixes[i].1 == vendor
  {
    match Lookup(VendorPrefixes, PrefixKey(mac))
    case Some(name) => name
    case None => Unknown
  }

  /** `u` begins with the table key `key` as its first three whole fields. */
  predicate StartsWithKey(u: string, key: string)
  {
    |key| <= |u| && u[..|key|] == key && (|u| == |key| || u[|key|] == ':')
  }

  /** A key as the table writes it: "XX:XX:XX", upper-case hex digits around two colons. */
  predicate IsKey(k: string)
  {
    && |k| == 8 && k[2] == ':' && k[5] == ':'
    && forall i :: 0 <= i < |k| && i != 2 && i != 5 ==> IsHexDigit(k[i]) && !('a' <= k[i] <= 'z')
  }

  /** A key has three fields and is its own upper-case form. */
  lemma KeyFacts(k: string)
    requires IsKey(k)
    ensures CountColons(k) == 2 && Upper(k) == k
  {
    CountColonsNone(k[6..]);
    CountColonsStep(k, 5);
    CountColonsStep(k, 4);
    CountColonsStep(k, 3);
    CountColonsStep(k, 2);
    CountColonsStep(k, 1);
    CountColonsStep(k, 0);
    assert k[0..] == k;
    UpperOfNoLower(k);
  }

  lemma TableKeys()
    ensures forall i :: 0 <= i < |VendorPrefixes| ==> IsKey(VendorPrefixes[i].0)
  {
  }

  /** Keys and names are pairwise distinct, and no name is the fallback. */
  lemma TableDistinct()
    ensures forall i, j :: 0 <= i < j < |VendorPrefixes| ==>
      VendorPrefixes[i].0 != VendorPrefixes[j].0 && VendorPrefixes[i].1 != VendorPrefixes[j].1
    ensures forall i :: 0 <= i < |VendorPrefixes| ==> VendorPrefixes[i].1 != Unknown
  {
    assert VendorPrefixes[0].0[3] != VendorPrefixes[1].0[3];
    assert VendorPrefixes[0].0[0] != VendorPrefixes[2].0[0] && VendorPrefixes[1].0[0] != VendorPrefixes[2].0[0];
    assert |VendorPrefixes[0].1| == 4 && |VendorPrefixes[1].1| == 5 && |VendorPrefixes[2].1| == 7;
    assert VendorPrefixes[2].1[0] != Unknown[0];
  }

  /** Facts about the table: keys are three upper-case hex pairs, hence three fields; keys and names are distinct. */
  lemma TableFacts()
    ensures forall i :: 0 <= i < |VendorPrefixes| ==> IsKey(VendorPrefixes[i].0)
    ensures forall i :: 0 <= i < |VendorPrefixes| ==>
      CountColons(VendorPrefixes[i].0) == 2 && |VendorPrefixes[i].0| == 8 && Upper(VendorPrefixes[i].0) == VendorPrefixes[i].0
    ensures forall i, j :: 0 <= i < j < |VendorPrefixes| ==>
      VendorPrefixes[i].0 != VendorPrefixes[j].0 && VendorPrefixes[i].1 != VendorPrefixes[j].1
    ensures forall i :: 0 <= i < |VendorPrefixes| ==> VendorPrefixes[i].1 != Unknown
  {
    TableKeys();
    forall i | 0 <= i < |VendorPrefixes|
      ensures CountColons(VendorPrefixes[i].0) == 2 && Upper(VendorPrefixes[i].0) == VendorPrefixes[i].0
    {
      KeyFacts(VendorPrefixes[i].0);
    }
    TableDistinct();
  }

  /** The looked-up key is the reference "first three fields" prefix of the upper-cased address. */
  lemma PrefixKeyIsFieldsPrefix(mac: string)
    ensures PrefixKey(mac) == FieldsPrefix(Upper(mac), 3)
  {
    TakeFieldsIsPrefix(Upper(mac), 3);
  }

  /** The vendor depends on the address only up to case. */
  lemma VendorIsCaseInsensitive(a: string, b: string)
    requires SameMac(a, b)
    ensures GetVendor(a) == GetVendor(b)
  {
    UpperOfSameMac(a, b);
  }

  /** Upper- or lower-casing an address first does not change its vendor. */
  lemma VendorOfRecased(mac: string)
    ensures GetVendor(Upper(mac)) == GetVendor(mac)
    ensures GetVendor(Lower(mac)) == GetVendor(mac)
  {
    SameMacUpper(mac);
    VendorIsCaseInsensitive(Upper(mac), mac);
    assert Lower(Lower(mac)) == Lower(mac);
    VendorIsCaseInsensitive(Lower(mac), mac);
  }

  /** An address resolves to the i-th vendor exactly when its upper-cased form starts with the i-th key as whole fields. */
  lemma {:induction false} VendorIff(mac: string, i: nat)
    requires i < |VendorPrefixes|
    ensures GetVendor(mac) == VendorPrefixes[i].1 <==> StartsWithKey(Upper(mac), VendorPrefixes[i].0)
  {
    TableFacts();
    PrefixKeyIsFieldsPrefix(mac);
    var key := VendorPrefixes[i].0;
    FieldsPrefixIff(Upper(mac), 3, key);
    var r := Lookup(VendorPrefixes, PrefixKey(mac));
    if GetVendor(mac) == VendorPrefixes[i].1 {
      assert r.Some?;
      var j :| 0 <= j < |VendorPrefixes| && VendorPrefixes[j] == (PrefixKey(mac), r.value);
      assert j == i;
    }
    if StartsWithKey(Upper(mac), key) {
      assert PrefixKey(mac) == key;
      assert r.Some?;
      var j :| 0 <= j < |VendorPrefixes| && VendorPrefixes[j] == (key, r.value);
      assert j == i;
    }
  }

  /** "Unknown" is reported exactly when no table key starts the address. */
  lemma VendorUnknownIff(mac: string)
    ensures GetVendor(mac) == Unknown <==> forall i :: 0 <= i < |VendorPrefixes| ==> !StartsWithKey(Upper(mac), VendorPrefixes[i].0)
  {
    TableFacts();
    forall i | 0 <= i < |VendorPrefixes|
      ensures GetVendor(mac) == VendorPrefixes[i].1 <==> StartsWithKey(Upper(mac), VendorPrefixes[i].0)
    {
      VendorIff(mac, i);
    }
  }

  /** A Dell-prefixed address in lower case still resolves to "Dell". */
  lemma VendorOfDellExample()
    ensures GetVendor("00:14:22:aa:bb:cc") == "Dell"
  {
    var u := Upper("00:14:22:aa:bb:cc");
    assert u[..8] == "00:14:22" && u[8] == ':';
    VendorIff("00:14:22:aa:bb:cc", 0);
  }

  /** A prefix one digit away from a key is "Unknown". */
  lemma VendorOfUnlistedExample()
    ensures GetVendor("00:14:23:aa:bb:cc") == Unknown
  {
    var u := Upper("00:14:23:aa:bb:cc");
    assert u[..8][7] == '3' && u[..8][3] == '1' && u[..8][0] == '0';
    assert u[..8] != VendorPrefixes[0].0 by { assert VendorPrefixes[0].0[7] == '2'; }
    assert u[..8] != VendorPrefixes[1].0 by { assert VendorPrefixes[1].0[3] == '4'; }
    assert u[..8] != VendorPrefixes[2].0 by { assert VendorPrefixes[2].0[0] == 'A'; }
    VendorUnknownIff("00:14:23:aa:bb:cc");
  }
}
