/**
 * Vendor lookup: the display string for a hardware address. Three reserved answers
 * come first (no address, the all-zero address, the broadcast address); any other
 * address is looked up in the registry dictionary by its vendor prefix.
 */
module VendorLookup {
  import opened Wrappers
  import opened Hardware
  import OuiRegistry

  const NullTag: string := "<null>"
  const EmptyTag: string := "<empty>"
  const BroadcastTag: string := "<broadcast>"
  const UnknownVendorTag: string := "<Unknown_Vendor>"

  /** The renderings the lookup compares against: twelve '0' and twelve 'F' characters. */
  const AllZeroText: string := "000000000000"
  const AllOnesText: string := "FFFFFFFFFFFF"

  /** The vendor prefix of an address: its first three bytes, rendered. */
  function VendorPrefix(a: MacAddress): (p: string)
    ensures |p| == 6 && p == Hex(a)[..6]
  {
    assert a == a[..3] + a[3..];
    HexAppend(a[..3], a[3..]);
    Hex(a[..3])
  }

  /**
   * The display string for `addr`: compares its rendering with the all-zero and
   * all-ones renderings, then looks up the first six characters in `dict`.
   */
  function GetOrgFromMacAddress(addr: Option<MacAddress>, dict: map<string, string>): (r: string)
    ensures r in {NullTag, EmptyTag, BroadcastTag, UnknownVendorTag} || r in dict.Values
  {
    match addr
    case None => NullTag
    case Some(a) =>
      var text := Hex(a);
      if text == AllZeroText then EmptyTag
      else if text == AllOnesText then BroadcastTag
      else if text[..6] in dict then dict[text[..6]]
      else UnknownVendorTag
  }

  /** An address renders as twelve '0' exactly when all its bytes are zero. */
  lemma AllZeroRendering(a: MacAddress)
    ensures Hex(a) == AllZeroText <==> a == ZeroMac
  {
    assert Hex(ZeroMac) == AllZeroText;
    HexInjective(a, ZeroMac);
  }

  /** An address renders as twelve 'F' exactly when all its bytes are 0xFF. */
  lemma AllOnesRendering(a: MacAddress)
    ensures Hex(a) == AllOnesText <==> a == BroadcastMac
  {
    assert Hex(BroadcastMac) == AllOnesText;
    HexInjective(a, BroadcastMac);
  }

  /**
   * The decision chain in terms of the address bytes: no address, then all-zero,
   * then all-ones, each whatever the dictionary holds; then the entry for the
   * address's vendor prefix, or the unknown-vendor answer.
   */
  lemma LookupDecisionChain(addr: Option<MacAddress>, dict: map<string, string>)
    ensures addr.None? ==> GetOrgFromMacAddress(addr, dict) == NullTag
    ensures addr == Some(ZeroMac) ==> GetOrgFromMacAddress(addr, dict) == EmptyTag
    ensures addr == Some(BroadcastMac) ==> GetOrgFromMacAddress(addr, dict) == BroadcastTag
    ensures addr.Some? && addr.value != ZeroMac && addr.value != BroadcastMac ==>
      GetOrgFromMacAddress(addr, dict)
        == if VendorPrefix(addr.value) in dict then dict[VendorPrefix(addr.value)] else UnknownVendorTag
  {
    if addr.Some? {
      AllZeroRendering(addr.value);
      AllOnesRendering(addr.value);
    }
  }

  /** The reserved answers win even over registry entries for prefixes "000000" and "FFFFFF". */
  lemma ReservedAddressesBeatRegistry(dict: map<string, string>)
    requires "000000" in dict && "FFFFFF" in dict
    ensures GetOrgFromMacAddress(Some(ZeroMac), dict) == EmptyTag
    ensures GetOrgFromMacAddress(Some(BroadcastMac), dict) == BroadcastTag
  {
    LookupDecisionChain(Some(ZeroMac), dict);
    LookupDecisionChain(Some(BroadcastMac), dict);
  }

  /**
   * Unless the dictionary itself holds the text "<broadcast>" as an organisation,
   * the lookup answers "<broadcast>" exactly for the all-ones address.
   */
  lemma BroadcastAnswerMeansBroadcast(a: MacAddress, dict: map<string, string>)
    requires BroadcastTag !in dict.Values
    ensures GetOrgFromMacAddress(Some(a), dict) == BroadcastTag <==> a == BroadcastMac
  {
    LookupDecisionChain(Some(a), dict);
    if a != BroadcastMac && a != ZeroMac && VendorPrefix(a) in dict {
      assert dict[VendorPrefix(a)] in dict.Values;
    }
  }

  /**
   * Looking up an ordinary address in the dictionary the registry scan built from
   * nothing yields every organisation the registry lists under its prefix, in file
   * order, or the unknown-vendor answer when there is none.
   */
  lemma LookupInScannedRegistry(lines: seq<string>, a: MacAddress)
    requires a != ZeroMac && a != BroadcastMac
    ensures var orgs := OuiRegistry.Organizations(lines, VendorPrefix(a));
      GetOrgFromMacAddress(Some(a), OuiRegistry.Filtered(map[], lines))
        == if |orgs| > 0 then OuiRegistry.Join(orgs) else UnknownVendorTag
  {
    var dict := OuiRegistry.Filtered(map[], lines);
    var k := VendorPrefix(a);
    LookupDecisionChain(Some(a), dict);
    OuiRegistry.FilteredIsJoinedHistory(map[], lines, k);
    OuiRegistry.OuisHaveOrganizations(lines, k);
    assert OuiRegistry.History(map[], lines, k) == OuiRegistry.Organizations(lines, k);
  }
}
