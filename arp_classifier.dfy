/**
 * ARP semantics classification: the tag string written beside each captured ARP
 * packet. A packet whose sender and target protocol addresses agree and whose
 * Ethernet frame is addressed to broadcast is gratuitous, and also an announcement
 * when it is a request; a request from the unspecified address 0.0.0.0 is a probe.
 */
module ArpClassifier {
  import opened Wrappers
  import opened Hardware
  import opened VendorLookup

  /** The ARP operation code of a request (`ArpOperation.Request`). */
  const RequestOp: UInt16 := 1

  /** `IPAddress.Parse("0.0.0.0")`. */
  const UnspecifiedAddress: IPv4Address := [0, 0, 0, 0]

  /**
   * The decoded fields of an ARP packet that the classification reads; nothing here
   * changes them. The sender and target hardware addresses feed only the console line,
   * which is not part of this model.
   */
  datatype ArpPacket = ArpPacket(
    senderProtocolAddress: IPv4Address,
    targetProtocolAddress: IPv4Address,
    operation: UInt16)

  datatype Tag = Announcement | Gratuitous | Probe

  /** The order in which tags are written when several apply. */
  const TagOrder: seq<Tag> := [Announcement, Gratuitous, Probe]

  function TagText(t: Tag): string {
    match t
    case Announcement => "[Announcement]"
    case Gratuitous => "[Gratuitous]"
    case Probe => "[Probe]"
  }

  /** The tags written one after the other, each in its own brackets. */
  function TagString(tags: seq<Tag>): (r: string)
    ensures r == "" <==> tags == []
    ensures 7 * |tags| <= |r| <= 14 * |tags|
  {
    if |tags| == 0 then "" else TagText(tags[0]) + TagString(tags[1..])
  }

  /**
   * Self-addressed and sent to broadcast. The broadcast test is on the vendor-lookup
   * answer for the frame's destination, not on the address itself.
   */
  function IsGratuitous(arp: ArpPacket, ethDestination: MacAddress, dict: map<string, string>): (r: bool)
    ensures r ==> arp.senderProtocolAddress == arp.targetProtocolAddress
    ensures r ==> ethDestination == BroadcastMac || BroadcastTag in dict.Values
    ensures arp.senderProtocolAddress == arp.targetProtocolAddress && ethDestination == BroadcastMac ==> r
  {
    LookupDecisionChain(Some(ethDestination), dict);
    var prefix := VendorPrefix(ethDestination);
    assert prefix in dict ==> dict[prefix] in dict.Values;
    && arp.senderProtocolAddress == arp.targetProtocolAddress
    && GetOrgFromMacAddress(Some(ethDestination), dict) == BroadcastTag
  }

  /** The rule for each tag, each judged on its own. */
  function Applies(t: Tag, arp: ArpPacket, ethDestination: MacAddress, dict: map<string, string>): (r: bool)
    ensures r && t != Probe ==> IsGratuitous(arp, ethDestination, dict)
    ensures r && t != Gratuitous ==> arp.operation == RequestOp
  {
    match t
    case Announcement => IsGratuitous(arp, ethDestination, dict) && arp.operation == RequestOp
    case Gratuitous => IsGratuitous(arp, ethDestination, dict)
    case Probe => arp.operation == RequestOp && arp.senderProtocolAddress == UnspecifiedAddress
  }

  /** The tags among `order` that apply, in the order given. */
  function Select(order: seq<Tag>, arp: ArpPacket, ethDestination: MacAddress, dict: map<string, string>): (tags: seq<Tag>)
    ensures forall t :: t in tags <==> t in order && Applies(t, arp, ethDestination, dict)
    ensures |tags| <= |order|
  {
    if |order| == 0 then []
    else
      (if Applies(order[0], arp, ethDestination, dict) then [order[0]] else [])
        + Select(order[1..], arp, ethDestination, dict)
  }

  /** The tags that apply to a packet, in the fixed display order. */
  function Tags(arp: ArpPacket, ethDestination: MacAddress, dict: map<string, string>): (r: seq<Tag>)
    ensures forall t :: t in r <==> Applies(t, arp, ethDestination, dict)
    ensures |r| <= 3
  {
    assert forall t :: t in TagOrder by {
      forall t ensures t in TagOrder {
        assert t.Announcement? || t.Gratuitous? || t.Probe?;
      }
    }
    Select(TagOrder, arp, ethDestination, dict)
  }

  /** The tags of a packet: Announcement, Gratuitous and Probe, each present when its rule applies. */
  lemma TagsInOrder(arp: ArpPacket, ethDestination: MacAddress, dict: map<string, string>)
    ensures Tags(arp, ethDestination, dict)
         == (if Applies(Announcement, arp, ethDestination, dict) then [Announcement] else [])
          + (if Applies(Gratuitous, arp, ethDestination, dict) then [Gratuitous] else [])
          + (if Applies(Probe, arp, ethDestination, dict) then [Probe] else [])
  {
    var a := if Applies(Announcement, arp, ethDestination, dict) then [Announcement] else [];
    var g := if Applies(Gratuitous, arp, ethDestination, dict) then [Gratuitous] else [];
    var p := if Applies(Probe, arp, ethDestination, dict) then [Probe] else [];
    assert [Probe][1..] == [];
    assert Select([Probe], arp, ethDestination, dict) == p + [];
    assert [Gratuitous, Probe][1..] == [Probe];
    assert Select([Gratuitous, Probe], arp, ethDestination, dict) == g + p;
    assert TagOrder[1..] == [Gratuitous, Probe];
    assert Tags(arp, ethDestination, dict) == a + (g + p);
  }

  lemma {:induction false} TagStringAppend(xs: seq<Tag>, ys: seq<Tag>)
    ensures TagString(xs + ys) == TagString(xs) + TagString(ys)
    decreases |xs|
  {
    if |xs| == 0 {
      assert xs + ys == ys;
    } else {
      assert (xs + ys)[1..] == xs[1..] + ys;
      TagStringAppend(xs[1..], ys);
    }
  }

  lemma TagStringAppendOne(tags: seq<Tag>, t: Tag)
    ensures TagString(tags + [t]) == TagString(tags) + TagText(t)
  {
    TagStringAppend(tags, [t]);
    assert [t][1..] == [];
  }

  /**
   * Builds the tag string of a packet whose frame is addressed to `ethDestination`,
   * appending each tag as its test passes.
   */
  method Classify(arp: ArpPacket, ethDestination: MacAddress, dict: map<string, string>) returns (spec: string)
    ensures spec == TagString(Tags(arp, ethDestination, dict))
  {
    spec := "";
    ghost var tags: seq<Tag> := [];
    if arp.senderProtocolAddress == arp.targetProtocolAddress
      && GetOrgFromMacAddress(Some(ethDestination), dict) == BroadcastTag
    {
      if arp.operation == RequestOp {
        TagStringAppendOne(tags, Announcement);
        spec, tags := spec + "[Announcement]", tags + [Announcement];
      }
      TagStringAppendOne(tags, Gratuitous);
      spec, tags := spec + "[Gratuitous]", tags + [Gratuitous];
    }
    if arp.operation == RequestOp && arp.senderProtocolAddress == UnspecifiedAddress {
      TagStringAppendOne(tags, Probe);
      spec, tags := spec + "[Probe]", tags + [Probe];
    }
    TagsInOrder(arp, ethDestination, dict);
  }

  /** The written string can be read back: different tag lists in display order never look alike. */
  lemma {:induction false} TagStringInjective(xs: seq<Tag>, ys: seq<Tag>)
    requires TagString(xs) == TagString(ys)
    ensures xs == ys
    decreases |xs|
  {
    if |xs| > 0 && |ys| > 0 {
      var tx, ty := TagText(xs[0]), TagText(ys[0]);
      assert TagString(xs)[1] == tx[1] && TagString(ys)[1] == ty[1];
      assert xs[0] == ys[0];
      assert TagString(xs[1..]) == TagString(ys[1..]) by {
        assert TagString(xs)[|tx|..] == TagString(xs[1..]);
        assert TagString(ys)[|tx|..] == TagString(ys[1..]);
      }
      TagStringInjective(xs[1..], ys[1..]);
    }
  }

  /**
   * A self-addressed request to broadcast is tagged "[Announcement][Gratuitous]",
   * followed by "[Probe]" only when its sender address is 0.0.0.0.
   */
  lemma GratuitousRequest(arp: ArpPacket, dict: map<string, string>)
    requires arp.senderProtocolAddress == arp.targetProtocolAddress
    requires arp.operation == RequestOp
    ensures Tags(arp, BroadcastMac, dict)
         == [Announcement, Gratuitous] + if arp.senderProtocolAddress == UnspecifiedAddress then [Probe] else []
  {
    TagsInOrder(arp, BroadcastMac, dict);
    LookupDecisionChain(Some(BroadcastMac), dict);
  }

  /** A self-addressed reply to broadcast is tagged "[Gratuitous]" and nothing else. */
  lemma GratuitousReply(arp: ArpPacket, dict: map<string, string>)
    requires arp.senderProtocolAddress == arp.targetProtocolAddress
    requires arp.operation != RequestOp
    ensures Tags(arp, BroadcastMac, dict) == [Gratuitous]
  {
    TagsInOrder(arp, BroadcastMac, dict);
    LookupDecisionChain(Some(BroadcastMac), dict);
  }

  /** A request from 0.0.0.0 for another address is a probe and nothing else, wherever it is sent. */
  lemma ProbeOnly(arp: ArpPacket, ethDestination: MacAddress, dict: map<string, string>)
    requires arp.operation == RequestOp
    requires arp.senderProtocolAddress == UnspecifiedAddress != arp.targetProtocolAddress
    ensures Tags(arp, ethDestination, dict) == [Probe]
  {
    TagsInOrder(arp, ethDestination, dict);
  }

  /** A packet between two different addresses from a specified sender gets no tag. */
  lemma OrdinaryPacketUntagged(arp: ArpPacket, ethDestination: MacAddress, dict: map<string, string>)
    requires arp.senderProtocolAddress != arp.targetProtocolAddress
    requires arp.senderProtocolAddress != UnspecifiedAddress
    ensures Tags(arp, ethDestination, dict) == []
  {
    TagsInOrder(arp, ethDestination, dict);
  }

  /** An announcement is always written, and written immediately before, the gratuitous tag. */
  lemma AnnouncementPrecedesGratuitous(arp: ArpPacket, ethDestination: MacAddress, dict: map<string, string>)
    ensures var tags := Tags(arp, ethDestination, dict);
      forall i :: 0 <= i < |tags| && tags[i] == Announcement ==> i + 1 < |tags| && tags[i + 1] == Gratuitous
  {
    TagsInOrder(arp, ethDestination, dict);
  }

  /**
   * When no organisation in the dictionary reads "<broadcast>", the gratuitous tag is
   * given exactly for self-addressed packets in frames sent to ff:ff:ff:ff:ff:ff.
   */
  lemma GratuitousMeansBroadcastFrame(arp: ArpPacket, ethDestination: MacAddress, dict: map<string, string>)
    requires BroadcastTag !in dict.Values
    ensures Gratuitous in Tags(arp, ethDestination, dict)
        <==> arp.senderProtocolAddress == arp.targetProtocolAddress && ethDestination == BroadcastMac
  {
    BroadcastAnswerMeansBroadcast(ethDestination, dict);
  }

  /**
   * A dictionary entry whose organisation reads "<broadcast>" makes a self-addressed
   * packet gratuitous although its frame is not sent to broadcast.
   */
  lemma RegistryNameCanPassForBroadcast(arp: ArpPacket, ethDestination: MacAddress, dict: map<string, string>)
    requires arp.senderProtocolAddress == arp.targetProtocolAddress
    requires ethDestination != ZeroMac && ethDestination != BroadcastMac
    requires VendorPrefix(ethDestination) in dict && dict[VendorPrefix(ethDestination)] == BroadcastTag
    ensures Gratuitous in Tags(arp, ethDestination, dict)
  {
    LookupDecisionChain(Some(ethDestination), dict);
  }
}
