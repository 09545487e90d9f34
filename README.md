# SubnetTool — a verified model of its core

SubnetTool is a small desktop utility. It checks whether a text is an IPv4 or
IPv6 address and splits a network into equal subnets. Given a network address,
its net mask and a longer subnet mask, it lists every subnet address. Given a
net mask and a minimum number of subnets, it finds the subnet mask to use,
with the all-zeros and all-ones subnets excluded.

This project models the core of SubnetTool in Dafny and proves its properties:

- `AddressSpaces` (address_space.dfy) models the address-space enum. IPv4 is 4 bytes and IPv6 is 16 bytes.
- `IPParser` (ip_parser.dfy) models the parser.
  - `Parse` handles text. The IPv4 grammar is tried first, then the IPv6 grammar, and anything else is rejected.
  - `ParseBytes` handles byte arrays and classifies them by length.
  - Its supporting modules hold the grammars and conversions:
    - `IPv4Text` (ipv4_text.dfy): the dotted-quad grammar, the conversion to octets, and dotted-decimal rendering.
    - `IPv6Text` (ipv6_text.dfy): the twelve-alternative IPv6 grammar, the conversion to sixteen octets, and rendering as eight lowercase hex groups.
    - `Numerals` (numerals.dfy): decimal and hex digits, plus splitting and joining on a separator.
    - `BigEndian` (big_endian.dfy): the unsigned big-endian value of a byte string, and its fixed-width encoding.
- `SubnetCalculators` (subnet_calculator.dfy) models the calculator.
  - The class `SubnetCalculator` has two methods. `CalcSubnetsForNetwork` fills the subnet array in a counted loop. `CalcSubnetMaskForNetwork` is the exponent search loop.
  - Each method is proved equal to a specification function (`Subnets`, `SubnetMaskFor`). Lemmas prove the count, stride, alignment, error order and minimality of those functions.
- `MainFormHandlers` (main_form_handler.dfy) models the handler.
  - The class `MainFormHandler` holds one calculator per address space.
  - `CalcSubnets` parses the address, computes its subnets and renders each one. Every failure yields an empty array.
  - `IsValidIP` and `CalcSubnetMask` delegate to the parser and to the calculator.
- `AsWritten` (as_written.dfy) models two calculator behaviours that differ from what the code evidently intends. See Findings.

The main ways the model differs from the code are these ("## Left out" lists the rest):

- Byte arrays are sequences of unsigned bytes (0..255). A subnet is the unsigned network value plus `i * 2^(bits - subnetMask)`, taken modulo `2^bits` and written in exactly ADDRESS_LEN bytes.
- Text-to-bytes and bytes-to-text go through `java.net.InetAddress` in the code. Here they are pure functions.
  - IPv4 is rendered in dotted decimal.
  - IPv6 is rendered as eight lowercase hex groups without leading zeros and without `::` compression, the form `Inet6Address.getHostAddress` prints. Section 4 of RFC 5952 recommends the compressed form; the model keeps the uncompressed eight-group form the program prints.
- `Math.pow` is replaced by exact powers of two.

## Model

| member | source | states |
|---|---|---|
| AddressSpaces.AddressSpace.ByteLen | src/com/subnetTool/AddressSpace.java:10-32 | the byte length is 4 exactly for IPv4 and 16 exactly for IPv6 |
| AddressSpaces.ByteLenDeterminesSpace | src/com/subnetTool/AddressSpace.java:10 | two spaces with the same byte length are the same space, so a raw length names at most one space |
| Numerals.DecimalTextRoundTrip | src/com/subnetTool/IPParser.java:203-204 | decimal text of a number reads back as that number, has no leading zero, and has at most three digits below 1000 |
| Numerals.HexTextRoundTrip | src/com/subnetTool/IPParser.java:190-191 | hex text of a group reads back as that group and has at most four digits below 0x10000 |
| Numerals.HexValueBound | src/com/subnetTool/IPParser.java:25 | one to four hex digits denote a value below 0x10000 |
| Numerals.SplitJoin | src/com/subnetTool/IPParser.java:22-23 | splitting separator-free fields joined by the separator gives back the fields |
| Numerals.JoinSplit | src/com/subnetTool/IPParser.java:22-23 | joining the fields of a split gives back the text |
| IPv4Text.SegmentExactly | src/com/subnetTool/IPParser.java:19-20 | a segment is accepted iff it is 1 to 3 digits with value at most 255 and, at 3 digits, no leading zero |
| IPv4Text.RejectedSegments | src/com/subnetTool/IPParser.java:19-20 | "256", "999" and "001" are rejected; "255", "01" and "0" are accepted |
| IPv4Text.Octets | src/com/subnetTool/IPParser.java:134-141 | an accepted dotted quad denotes four octets; which octets is stated by `SegmentsTextOctets` for every spelling |
| IPv4Text.RenderRoundTrip | src/com/subnetTool/IPParser.java:19-23 | the dotted-decimal text of any four octets is accepted by the grammar and converts back to the same octets |
| IPv4Text.SegmentsTextOctets | src/com/subnetTool/IPParser.java:19-23 | any four accepted segments joined by dots, including a spelling with a leading zero such as "01", form an accepted address whose octets are the segments' decimal values |
| IPv4Text.LeadingZeroSegmentExample | src/com/subnetTool/IPParser.java:19-20 | "10.0.0.01" is accepted and converts to 10, 0, 0, 1 |
| IPv4Text.Alphabet | src/com/subnetTool/IPParser.java:22-23 | an accepted IPv4 text has only digits and dots, so it has no colon |
| IPv6Text.ElidedAlternatives | src/com/subnetTool/IPParser.java:30-44 | the eight `::` alternatives accept exactly one `::` with at most seven hextets around it, so `::` stands for at least one zero group |
| IPv6Text.HeadUnitsOfJoin | src/com/subnetTool/IPParser.java:25-28 | reading `(H:)*` units from colon-joined hextets takes all but the last one |
| IPv6Text.Groups | src/com/subnetTool/IPParser.java:154-155 | when an accepted IPv6 text converts, it gives eight 16-bit groups; the lemmas below say which groups each form of the grammar stands for |
| IPv6Text.FullTextGroups | src/com/subnetTool/IPParser.java:27-28 | any eight hextets joined by colons, in any spelling (upper or lower case, leading zeros), are accepted and stand for the hextets' values |
| IPv6Text.LinkLocalTextGroups | src/com/subnetTool/IPParser.java:45-47 | `fe80:`, one to four units `:H`, then `%` and a zone index of letters and digits: accepted, standing for fe80, zero groups, then the hextets' values, with the zone index dropped |
| IPv6Text.GroupOctetsRoundTrip | src/com/subnetTool/IPParser.java:155 | pairing octets into 16-bit groups and splitting them back is the identity |
| IPv6Text.Octets | src/com/subnetTool/IPParser.java:148-160 | an accepted IPv6 text converts exactly when its groups do, and then gives sixteen octets |
| IPv6Text.RenderRoundTrip | src/com/subnetTool/IPParser.java:185-191 | the rendering of any sixteen octets is in the full eight-group form, is accepted, and converts back to the same octets |
| IPv6Text.HasColon | src/com/subnetTool/IPParser.java:25-54 | every accepted IPv6 text has a colon |
| IPv6Text.ElidedTextGroups | src/com/subnetTool/IPParser.java:29-44 | hextets h, then `::`, then hextets t, at most seven in all: the text is accepted and stands for h's values, 8 - |h| - |t| zero groups, then t's values |
| IPv6Text.EmbeddedTextGroups | src/com/subnetTool/IPParser.java:52-54 | one to four hextets, `::` and a dotted quad: accepted, standing for the hextets' values, zero groups up to six, then the quad's two groups |
| IPv6Text.EmbeddedTextOctets | src/com/subnetTool/IPParser.java:52-54 | the same text converts, and its last four octets are the dotted quad's octets |
| IPv6Text.MappedQuadGroups | src/com/subnetTool/IPParser.java:48-51 | `::` and a dotted quad: accepted, standing for six zero groups then the quad's two groups |
| IPv6Text.MappedQuadOctets | src/com/subnetTool/IPParser.java:48-51 | the same text converts, and its last four octets are the quad's |
| IPv6Text.MappedFfffQuadGroups | src/com/subnetTool/IPParser.java:48-51 | `::ffff:` and a dotted quad: accepted, standing for five zero groups, ffff, then the quad's two groups |
| IPv6Text.MappedFfffQuadOctets | src/com/subnetTool/IPParser.java:48-51 | the same text converts, and its last four octets are the quad's |
| IPv6Text.TranslatedQuadGroups | src/com/subnetTool/IPParser.java:48-51 | `::ffff:`, one to four zeros, a colon and a dotted quad: accepted, standing for four zero groups, ffff, a zero group, then the quad's two groups |
| IPv6Text.TranslatedQuadOctets | src/com/subnetTool/IPParser.java:48-51 | the same text converts, and its last four octets are the quad's |
| IPv6Text.ZoneWithoutGroupsAccepted | src/com/subnetTool/IPParser.java:45-47 | `fe80:%` and a zone index is accepted by the grammar but stands for no groups |
| IPv6Text.NoGroupsIsZoneOnly | src/com/subnetTool/IPParser.java:45-47 | an accepted text that stands for no groups is `fe80:%` and a zone index |
| IPv6Text.OctetsNoneExactly | src/com/subnetTool/IPParser.java:148-160 | an accepted text fails to convert iff it is `fe80:%` followed by a zone index |
| IPv6Text.AtMostOneElision | src/com/subnetTool/IPParser.java:25-54 | every accepted IPv6 text holds at most one `::` |
| IPv6Text.ElisionIndexUnique | src/com/subnetTool/IPParser.java:25-54 | in an accepted IPv6 text, any two places where `::` starts are the same place |
| IPv6Text.ElidedDoubleColons | src/com/subnetTool/IPParser.java:29-44 | a text of an elided form holds exactly one `::` |
| IPv6Text.MappedDoubleColons | src/com/subnetTool/IPParser.java:48-51 | a mapped or translated text holds exactly one `::`, its first two characters |
| IPv6Text.EmbeddedDoubleColons | src/com/subnetTool/IPParser.java:52-54 | an embedded-IPv4 text holds exactly one `::` |
| IPParser.Parse | src/com/subnetTool/IPParser.java:129-169 | succeeds iff the text is IPv4 or a convertible IPv6; "not an address" iff neither grammar matches; keeps the text; the space is IPv4 iff the IPv4 grammar matched; the octet count is the space's length |
| IPParser.ParseBytes | src/com/subnetTool/IPParser.java:179-217 | succeeds iff the length is 4 or 16, keeps the bytes, and sets the space whose length is the array's; otherwise reports the wrong length |
| IPParser.GrammarsDisjoint | src/com/subnetTool/IPParser.java:134-148 | no text is in both grammars, so trying IPv4 first is unambiguous |
| IPParser.ParseOfParseBytes | src/com/subnetTool/IPParser.java:179-217 | parsing the text of a parsed 4- or 16-byte array gives the same text, octets and space |
| IPParser.RejectsOutOfRangeSegment | src/com/subnetTool/IPParser.java:162-165 | "999.1.1.1" fails as not an address |
| IPParser.RejectsSecondElision | src/com/subnetTool/IPParser.java:25-54 | "2001:db8::1::2", with `::` at two places, fails as not an address, an instance of `IPv6Text.ElisionIndexUnique` |
| SubnetCalculators.Subnets | src/com/subnetTool/SubnetCalculator.java:22-56 | on success every subnet has exactly ADDRESS_LEN bytes |
| SubnetCalculators.ErrorOrder | src/com/subnetTool/SubnetCalculator.java:24-37 | the length error is reported iff the length is wrong; the mask-order error iff the length is right and subnetMask <= netMask; the range error iff the earlier checks pass and a mask exceeds the bits; success iff all checks pass |
| SubnetCalculators.SubnetCount | src/com/subnetTool/SubnetCalculator.java:39-47 | on success there are 2^(subnetMask - netMask) >= 2 subnets, each ADDRESS_LEN bytes |
| SubnetCalculators.EntryValue | src/com/subnetTool/SubnetCalculator.java:41-51 | entry i is (base + i * 2^(bits - subnetMask)) mod 2^bits |
| SubnetCalculators.FirstEntryIsBase | src/com/subnetTool/SubnetCalculator.java:47-51 | the first subnet is the network address itself |
| SubnetCalculators.ConsecutiveStride | src/com/subnetTool/SubnetCalculator.java:43-50 | consecutive subnets are one stride apart |
| SubnetCalculators.AlignedEntry | src/com/subnetTool/SubnetCalculator.java:39-50 | for a network with zero host bits, entry i is base + i * stride with no wrap, keeps the first netMask bits, and stays inside the network |
| SubnetCalculators.AlignedIncreasing | src/com/subnetTool/SubnetCalculator.java:39-50 | for a network with zero host bits the subnets are strictly increasing |
| SubnetCalculators.SearchBorrowedBits | src/com/subnetTool/SubnetCalculator.java:69-81 | searching up from k finds an exponent with enough usable subnets, and every smaller exponent falls short |
| SubnetCalculators.LeastBorrowedBits | src/com/subnetTool/SubnetCalculator.java:69-81 | the result is the least k >= 1 with 2^k - 2 >= minimumSubnets |
| SubnetCalculators.LeastBorrowedBitsUnique | src/com/subnetTool/SubnetCalculator.java:69-81 | any k with that property is the one found |
| SubnetCalculators.SubnetMaskForMeaning | src/com/subnetTool/SubnetCalculator.java:58-82 | minimumSubnets < 1 is reported first, then netMask < 1; otherwise the result is netMask + k for the least sufficient k |
| SubnetCalculators.SubnetMaskAtLeastTwoMore | src/com/subnetTool/SubnetCalculator.java:69-81 | the subnet mask is at least netMask + 2 |
| SubnetCalculators.SubnetMaskExample | src/com/subnetTool/SubnetCalculator.java:58-82 | netMask 24 with five subnets gives 27 |
| SubnetCalculators.SubnetCalculator.constructor | src/com/subnetTool/SubnetCalculator.java:15-19 | keeps the byte length; the bit length is eight times it |
| SubnetCalculators.SubnetCalculator.CalcSubnetsForNetwork | src/com/subnetTool/SubnetCalculator.java:22-56 | the array filled by the loop, or the error, is exactly `Subnets` |
| SubnetCalculators.SubnetCalculator.CalcSubnetMaskForNetwork | src/com/subnetTool/SubnetCalculator.java:58-82 | the exponent search loop returns exactly `SubnetMaskFor` |
| MainFormHandlers.SubnetTextsOnError | src/com/subnetTool/MainFormHandler.java:47-50 | a parse error or a calculator argument error gives an empty array |
| MainFormHandlers.SubnetTextsOnSuccess | src/com/subnetTool/MainFormHandler.java:37-45 | on success there is one text per subnet, in order, and each parses back to that subnet's octets in the same space |
| MainFormHandlers.SubnetTextsExample | src/com/subnetTool/MainFormHandler.java:37-45 | "192.168.1.0" from /24 to /26 gives .0, .64, .128 and .192, in order |
| MainFormHandlers.MainFormHandler.constructor | src/com/subnetTool/MainFormHandler.java:13-17 | keeps the calculator map |
| MainFormHandlers.MainFormHandler.Wired | src/com/subnetTool/Main.java:23-29 | the application's map gives every space a calculator of that space's length: 4 for IPv4 and 16 for IPv6 |
| MainFormHandlers.MainFormHandler.IsValidIP | src/com/subnetTool/MainFormHandler.java:19-31 | true iff parsing succeeds, that is iff the text is IPv4 or a convertible IPv6 |
| MainFormHandlers.MainFormHandler.CalcSubnets | src/com/subnetTool/MainFormHandler.java:33-51 | the loop's result is exactly `SubnetTexts`: parse, use the space's calculator, render each subnet, and give an empty array on any failure |
| MainFormHandlers.MainFormHandler.CalcSubnetMask | src/com/subnetTool/MainFormHandler.java:53-57 | exactly the calculator's answer, with its errors passed on |
| AsWritten.SignedValueMeaning | src/com/subnetTool/SubnetCalculator.java:42 | `new BigInteger(bytes)` is congruent to the unsigned value, lies in the signed range, and is negative iff the top bit is set |
| AsWritten.ToByteArrayValue | src/com/subnetTool/SubnetCalculator.java:51 | the bytes of `toByteArray`, read unsigned, are the number reduced modulo their width |
| AsWritten.ToByteArrayShortest | src/com/subnetTool/SubnetCalculator.java:51 | `toByteArray` holds the number in its signed range, and no shorter length would hold it |
| AsWritten.WrittenValue | src/com/subnetTool/SubnetCalculator.java:42-51 | a full-width `toByteArray` of the signed network value plus an offset reads as the unsigned value plus the offset, reduced to the width |
| AsWritten.SubnetsAsWritten | src/com/subnetTool/SubnetCalculator.java:22-56 | the as-written computation, which keeps the model's extra check for more than 30 borrowed bits, fails exactly when the model does, with the same error, and otherwise has as many entries |
| AsWritten.AsWrittenAgreesAtFullWidth | src/com/subnetTool/SubnetCalculator.java:42-51 | where `toByteArray` gives ADDRESS_LEN bytes, those are the model's bytes |
| AsWritten.ZeroNetworkAsWritten | src/com/subnetTool/SubnetCalculator.java:42-51 | as written, network 0.0.0.0 /24 to /26 gives the 1-byte first entry [0], which no parse accepts, so the handler returns an empty array |
| AsWritten.ZeroNetworkCorrected | src/com/subnetTool/SubnetCalculator.java:44 | in the model the same request gives [0,0,0,0] first and four texts |
| AsWritten.JavaIntPow2 | src/com/subnetTool/SubnetCalculator.java:72 | `(int) Math.pow(2, k)` lies in 0..Integer.MAX_VALUE and is exact for k up to 30 |
| AsWritten.SearchAsWrittenNeverEnds | src/com/subnetTool/SubnetCalculator.java:69-81 | for minimumSubnets of 2^31 - 2 or more, no exponent passes the test as written |
| AsWritten.SearchCorrectedEnds | src/com/subnetTool/SubnetCalculator.java:58-82 | with exact powers the same request gives netMask + 31 |

## Left out

- The Swing form (MainForm.java), the start-up frame (Main.java, apart from its calculator map) and the listener interface (MainFormListener.java) are not part of this model. They are user-interface plumbing. The handler's two-argument `calcSubnetMask` is modelled.
- `java.net.InetAddress` and `Inet6Address` are foreign library calls. They become pure functions, and name resolution is not modelled.
- JDK parser quirks are not modelled:
  - IPParser.Parse: the JDK turns every text in the IPv4-mapped range ::ffff:0:0/96 into 4 bytes, in any spelling (`::ffff:1.2.3.4`, `::ffff:102:304`, `0:0:0:0:0:ffff:1:2`). The model gives the 16 bytes the text stands for.
  - IPParser.ParseBytes: for a 16-byte array in that range, `Inet6Address.getByAddress` (IPParser.java:190) returns an IPv4 address, and `getHostAddress` (IPParser.java:191) prints it in dotted decimal. The model renders eight hex groups. On that range ParseBytes does not describe the program.
  - IPParser.ParseOfParseBytes: on that range the program's round trip goes from 16 bytes to a dotted quad and then to 4 bytes in the IPv4 space. The lemma holds of the model only, not of the program.
  - IPParser.Parse: a zone index that is not a number is resolved against the host's network interfaces by `getByName` (IPParser.java:154). When no such interface exists, the JDK throws, the parser raises a ParseException, and isValidIP is false. The model accepts any alphanumeric zone index and drops it; this dependence on the host is not modelled.
- A grammar-accepted `fe80:%zone` with no groups fails to convert, as in the JDK, and Parse reports "Could not parse given IPv6 address" (`IPv6Text.OctetsNoneExactly`). This behaviour is modelled; it is listed here because nothing else in the grammar reaches that error.
- The regex engine is not modelled. The grammars are deterministic recognisers that read the same units the patterns describe.
- IPParser.Parse: the branch "Could not parse given IPv4 address" cannot arise in the model, because every text the IPv4 grammar accepts converts.
- The parser object held by MainFormHandler is not a field here. The parser has no state, so its operations are the functions of module `IPParser`.
- SubnetCalculators.Subnets: `Math.pow` and the `(int)` cast at SubnetCalculator.java:40 are not modelled.
  - The model adds one check after the three the code makes: more than 30 borrowed bits is reported as `TooManySubnets`.
  - In the code, 31 or more borrowed bits saturate the count at 2^31 - 1, and the allocation fails with an Error that the handler does not catch.
- AsWritten.SubnetsAsWritten: it keeps the model's `TooManySubnets` check for more than 30 borrowed bits. The code never reports that error: there the count saturates and the allocation at SubnetCalculator.java:44 throws an Error.
- SubnetCalculators.Subnets: a negative `netMask` is not checked, as in the code. The alignment lemmas assume `0 <= netMask`.
- SubnetCalculators.SubnetMaskFor: the result `netMask + k` is an unbounded integer. Int overflow of the returned mask is not modelled, and the result is not bounded by the address width, as in the code.
- A calculator with ADDRESS_LEN 0 is not modelled. In the code, `new BigInteger(new byte[0])` throws there.
- MainFormHandlers.MainFormHandler.CalcSubnets: the NullPointerException for a space with no calculator is not modelled. `Valid()` requires every space to have one, as Main.java's map does.

## Findings

| source | as written | input that shows it | evidently intended | confidence | as-written member | corrected member |
|---|---|---|---|---|---|---|
| src/com/subnetTool/SubnetCalculator.java:42,51 | the network bytes are read as a signed BigInteger, and each subnet is emitted with `toByteArray`, the shortest two's-complement encoding, so an entry can be shorter or longer than ADDRESS_LEN | network 0.0.0.0, netMask 24, subnetMask 26: entry 0 is the single byte 0, its re-parse fails, and calcSubnets returns an empty array | every subnet written in exactly ADDRESS_LEN bytes, as the allocation at line 44 provides | high; not executed | AsWritten.ZeroNetworkAsWritten | AsWritten.ZeroNetworkCorrected |
| src/com/subnetTool/SubnetCalculator.java:72 | `(int) Math.pow(2, exponentCounter)` saturates at Integer.MAX_VALUE, so the usable count never exceeds 2^31 - 3 | minimumSubnets 2147483646 with netMask 1: the loop never ends | the least exponent with 2^k - 2 >= minimumSubnets, here 31 | high; not executed | AsWritten.SearchAsWrittenNeverEnds | AsWritten.SearchCorrectedEnds |
