# ARPSniffer core, modelled in Dafny

ARPSniffer listens to ARP traffic on a network interface. It prints each packet
with two annotations. The first is the vendor of each hardware address, taken from
the IEEE OUI registry. The second is a tag string that says what the packet is
for: an announcement, a gratuitous ARP, or an address probe. This project models
the three pieces of `ARPSniffer/Program.cs` that make those decisions:

- **The registry scan** (`FilterOUIFile`), in `oui_registry.dfy`. It walks the
  lines of the registry text dump and keeps only the lines that contain the marker
  `"     (base 16)\t\t"`. The key is the text before the first space. The
  organisation is the text between the first `"\t\t"` and the next one. It fills a
  dictionary in place. When a prefix is already present, it appends `", also "` and
  the new organisation instead of overwriting. The dictionary is the class
  `OuiDictionary` with a `map` field, and `FilterOuiFile` is a method with a loop
  that updates that field. Its contract ties the new map to `Filtered`, the same
  scan written as a function over the lines. `FilteredIsJoinedHistory` then
  describes `Filtered` independently: each prefix maps to everything it has
  collected, in file order, joined by `", also "`.
- **The vendor lookup** (`GetOrgFromMacAddress`), in `vendor_lookup.dfy`. It is a
  pure function, like the source. It compares the address's rendering
  (`PhysicalAddress.ToString()`: 12 upper-case hex digits, modelled by `Hex` in
  `hardware.dfy`) with twelve `0` and twelve `F`. Then it looks up the first six
  characters. The lemmas restate this decision chain in terms of the address
  bytes, and `Hex` is shown to be invertible. The lookup reads the dictionary as a
  `map` value, so it cannot change it.
- **The ARP classification** (the tag-building block of `Device_OnPacketArrival`),
  in `arp_classifier.dfy`. `Classify` is a method that appends to a string, like
  the source. Its contract says the result is the text of `Tags`. `Tags` judges
  each tag by its own rule (`Applies`) and lists the tags that apply in the fixed
  order Announcement, Gratuitous, Probe.

`text.dfy` models the .NET string operations the scan uses (`Contains`, and
elements 0 and 1 of `Split`).

One consequence of the source is worth knowing. The broadcast test for a
gratuitous packet compares the vendor-lookup answer with the text `"<broadcast>"`.
It does not compare the address itself. A registry organisation whose name is
literally `<broadcast>` would therefore pass the test for a non-broadcast frame
(`RegistryNameCanPassForBroadcast`). When no dictionary value reads
`<broadcast>`, the test is exactly "sent to ff:ff:ff:ff:ff:ff"
(`GratuitousMeansBroadcastFrame`). The real IEEE registry has no such name, so
this is recorded as a property, not as a defect.

Details of the code the model keeps:

- The key ends at the first space character. A tab does not end it.
- The organisation is element 1 of `Split("\t\t")`. It stops at a further
  `"\t\t"`, so it is not always the rest of the line.
- The scan updates the program's dictionary in place.
- The classifier calls the vendor lookup over the program's own dictionary.
- The code does no validation of the decoded packet. The model takes typed fields:
  4-byte IPv4 addresses, a 16-bit operation code and the frame's 6-byte
  destination address.

## Model

| member | source | states |
|---|---|---|
| `Text.Contains` | ARPSniffer/Program.cs:160 | `s.Contains(pat)` holds exactly when `pat` occurs in `s` at some index |
| `Text.Before` | ARPSniffer/Program.cs:162 | `s.Split(' ')[0]` is the prefix of `s` before the first occurrence of the separator, or all of `s` when the separator does not occur |
| `Text.SecondField` | ARPSniffer/Program.cs:163 | `s.Split(sep)[1]` starts right after the first separator and stops at the first further separator, or at the end of `s` when there is none; it never contains the separator |
| `Hardware.Hex` | ARPSniffer/Program.cs:138 | `PhysicalAddress.ToString()` gives two upper-case hex digits per byte |
| `Hardware.HexRoundTrip` | ARPSniffer/Program.cs:138-146 | the bytes of an address can be read back from its rendering |
| `Hardware.HexInjective` | ARPSniffer/Program.cs:138-142 | two addresses render alike exactly when they are equal |
| `Hardware.HexAppend` | ARPSniffer/Program.cs:146 | rendering works byte by byte, so the first three bytes render as the first six characters |
| `OuiRegistry.EntryLineHasFields` | ARPSniffer/Program.cs:160-163 | a line that holds the marker also holds a space and `"\t\t"`, so both `Split` results used at lines 162-163 exist |
| `OuiRegistry.LineOui` | ARPSniffer/Program.cs:162 | the key of an entry line is a prefix of the line with no space in it, followed by a space unless it is the whole line |
| `OuiRegistry.LineOrganization` | ARPSniffer/Program.cs:163 | an entry line holds `"\t\t"`, and its organisation is the text after the first `"\t\t"` up to the first further `"\t\t"`, or to the end of the line when there is none |
| `OuiRegistry.Step` | ARPSniffer/Program.cs:160-171 | one scanned line adds its prefix to the keys when it is an entry line and adds nothing otherwise; every value already present is kept as a prefix of its new value |
| `OuiRegistry.Filtered` | ARPSniffer/Program.cs:158-171 | after the scan the keys are the old keys plus the prefixes the entry lines name, and a value already present is never overwritten, only appended to |
| `OuiRegistry.StepExtendsHistory` | ARPSniffer/Program.cs:164-171 | one scanned line adds a new prefix with its organisation, or appends `", also "` and the organisation to a known prefix's value; other lines change nothing |
| `OuiRegistry.FilteredIsJoinedHistory` | ARPSniffer/Program.cs:156-174 | after the scan, a prefix is a key exactly when it was one before or an entry line names it, and its value is its old value followed by every organisation listed for it, in file order, joined by `", also "` |
| `OuiRegistry.FilteredUntouched` | ARPSniffer/Program.cs:158-171 | a prefix that no entry line names keeps its value, or stays absent |
| `OuiRegistry.NoiseLinesIgnored` | ARPSniffer/Program.cs:158-160 | lines without the marker leave the dictionary unchanged |
| `OuiRegistry.EntryLineRoundTrip` | ARPSniffer/Program.cs:160-163 | a line written as prefix, marker, organisation parses back to that prefix and organisation when the prefix has no space or tab and the organisation has no `"\t\t"` |
| `OuiRegistry.StepOnEntry` | ARPSniffer/Program.cs:160-171 | scanning an entry line adds its prefix with its organisation, or appends `", also "` and the organisation to the prefix's existing value; every other key keeps its value |
| `OuiRegistry.SamePrefixAccumulates` | ARPSniffer/Program.cs:158-171 | two entry lines with the same prefix, scanned into an empty dictionary, leave one key whose value is the first organisation, `", also "`, then the second |
| `OuiRegistry.ConflictingEntriesAccumulate` | ARPSniffer/Program.cs:164-171 | two entry lines for one prefix, such as `Foo` then `Bar`, leave the single value `"Foo, also Bar"` |
| `OuiRegistry.OuiDictionary.constructor` | ARPSniffer/Program.cs:11 | the dictionary starts empty |
| `OuiRegistry.FilterOuiFile` | ARPSniffer/Program.cs:156-174 | the in-place scan leaves the dictionary equal to `Filtered` of its old value and the lines: keys grow by the named prefixes, old values are only extended, and untouched keys keep their values |
| `VendorLookup.VendorPrefix` | ARPSniffer/Program.cs:146 | the first six characters of the rendering are the rendering of the first three bytes |
| `VendorLookup.GetOrgFromMacAddress` | ARPSniffer/Program.cs:132-154 | the answer is one of the four reserved texts or a value stored in the dictionary |
| `VendorLookup.AllZeroRendering` | ARPSniffer/Program.cs:138 | the rendering is twelve `0` exactly when every byte is zero |
| `VendorLookup.AllOnesRendering` | ARPSniffer/Program.cs:142 | the rendering is twelve `F` exactly when every byte is 0xFF |
| `VendorLookup.LookupDecisionChain` | ARPSniffer/Program.cs:132-154 | no address gives `<null>`, all-zero gives `<empty>` and all-ones gives `<broadcast>`, whatever the dictionary holds; any other address gives the entry for its vendor prefix, or `<Unknown_Vendor>` |
| `VendorLookup.ReservedAddressesBeatRegistry` | ARPSniffer/Program.cs:138-145 | entries for `000000` and `FFFFFF` never win over `<empty>` and `<broadcast>` |
| `VendorLookup.BroadcastAnswerMeansBroadcast` | ARPSniffer/Program.cs:142-149 | when no dictionary value reads `<broadcast>`, the lookup answers `<broadcast>` exactly for the all-ones address |
| `VendorLookup.LookupInScannedRegistry` | ARPSniffer/Program.cs:146-153 | after scanning the registry into an empty dictionary, an ordinary address yields all organisations listed under its prefix, in file order, or `<Unknown_Vendor>` when there are none |
| `ArpClassifier.TagString` | ARPSniffer/Program.cs:118-124 | the written tags give the empty string exactly when no tag applies, and each tag takes between 7 and 14 characters |
| `ArpClassifier.IsGratuitous` | ARPSniffer/Program.cs:113-114 | the gratuitous test holds for every self-addressed packet in a frame sent to ff:ff:ff:ff:ff:ff, and only for self-addressed packets; it can hold for another destination only when a dictionary value reads `<broadcast>` |
| `ArpClassifier.Applies` | ARPSniffer/Program.cs:113-124 | Announcement and Gratuitous require the gratuitous test; Announcement and Probe are given to requests only |
| `ArpClassifier.Tags` | ARPSniffer/Program.cs:113-125 | a tag is in the list exactly when its rule applies, and there are at most three |
| `ArpClassifier.TagsInOrder` | ARPSniffer/Program.cs:113-125 | the tags are Announcement, Gratuitous and Probe, in that order, each present exactly when its rule applies |
| `ArpClassifier.Classify` | ARPSniffer/Program.cs:111-125 | the tag string built by appending is the text of the tags whose rules apply, in display order |
| `ArpClassifier.TagStringInjective` | ARPSniffer/Program.cs:118-124 | different tag lists never produce the same tag string |
| `ArpClassifier.GratuitousRequest` | ARPSniffer/Program.cs:113-124 | a self-addressed request sent to broadcast is tagged Announcement then Gratuitous, plus Probe when its sender is 0.0.0.0 |
| `ArpClassifier.GratuitousReply` | ARPSniffer/Program.cs:113-121 | a self-addressed reply sent to broadcast is tagged Gratuitous only |
| `ArpClassifier.ProbeOnly` | ARPSniffer/Program.cs:122-125 | a request from 0.0.0.0 for another address is tagged Probe only, wherever it is sent |
| `ArpClassifier.OrdinaryPacketUntagged` | ARPSniffer/Program.cs:111-125 | a packet between different addresses from a specified sender gets no tag |
| `ArpClassifier.AnnouncementPrecedesGratuitous` | ARPSniffer/Program.cs:116-120 | an Announcement tag is always immediately followed by a Gratuitous tag |
| `ArpClassifier.GratuitousMeansBroadcastFrame` | ARPSniffer/Program.cs:113-114 | when no dictionary value reads `<broadcast>`, Gratuitous is given exactly for self-addressed packets in frames sent to the all-ones address |
| `ArpClassifier.RegistryNameCanPassForBroadcast` | ARPSniffer/Program.cs:114 | a dictionary organisation that reads `<broadcast>` makes a self-addressed packet gratuitous even when its frame is not sent to broadcast |

## Left out

- `Main` (ARPSniffer/Program.cs:13-95): finding the executable's folder, checking for and reading `oui.txt`, listing capture devices, reading the user's choice and starting the capture. This is file, device and console I/O. The lines of `oui.txt` are the `seq<string>` given to `FilterOuiFile`.
- `DownloadOUIFileAsync` (ARPSniffer/Program.cs:176-186): an HTTP download and a file write. This is network and file I/O.
- Packet decoding in `Device_OnPacketArrival` (ARPSniffer/Program.cs:99-106): `Packet.ParsePacket`, `Extract<...>` and the check for a missing ARP packet belong to the capture library. The model takes the decoded fields (`ArpPacket`) and the frame's destination address as inputs.
- A missing Ethernet frame at line 114 (a link layer other than Ethernet) and hardware addresses that are not 6 bytes long. These depend on the capture library. The model's types exclude them.
- The console line at ARPSniffer/Program.cs:126-128: the timestamp, `HexPrinter.PrintMACAddress`, `PadLeft(49)` and the two vendor lookups for the sender and target hardware addresses. This is display formatting. Those two lookups are plain calls of `GetOrgFromMacAddress`, which is modelled.
- `IPAddress.Equals` is modelled as equality of the four address bytes. ARP packets here carry IPv4 addresses only, so the address family never differs.
- Concurrency: the capture callback and the registry scan run on one thread in the source, so none is modelled.
