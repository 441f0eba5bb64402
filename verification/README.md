# A verified model of the Hedera Go SDK's algorithmic core

The SDK builds, encodes, signs and sends requests to a network of nodes. This project models the
parts of it that compute something, and proves what they promise, or exactly when they keep it:

* **Mnemonics** (`Mnemonics`, `PackedPhrases`, `Crc8`, `CrcLaws`, `KnownPhrases` over `Numerals`, `Bitwise`):
  radix conversion of word indices, the masked and checksummed 22-word legacy form, the bit-packed 24-word form
  (section "Generating the mnemonic" of BIP-39), and the CRC. Legacy phrases and 32-byte entropies correspond one
  to one; bit packing is radix conversion; the changes the CRC misses are the multiples of its generator.
* **Address checksums and entity IDs** (`EntityChecksum`, `ChecksumLaws`, `EntityIds`, `AddressPattern`, `KnownIds`,
  `SolidityAddresses`): the checksum of section "Specification" of HIP-15, what its letters say and its exact
  collisions; the strings the parsers take apart; and printing, parsing and validating IDs.
* **Solidity ABI** (`AbiEncoding`, `AbiSelector`, `AbiParameters`, `AbiResults`, `AbiRoundTrip`, `KnownCalls` over
  `BigEndian`): argument lists written in two passes into one buffer, the types that select the function called,
  and the getters reading results back.
* **Nodes, networks and the retry loop** (`ManagedNodes`, `ManagedNetworks`, `Execution`, `ExecutionLaws`,
  `NetworkViews`, `RunLaws`, `NetworkRuns`): backoff and readmission, three redundant views of the nodes kept in
  agreement, what a request's attempts do to its outcome, the counters and the delays, and a transition relation
  every operation refines, over whose runs no failed node is met too early.
* **Chunked upload** (`FileAppend`, `ContractFlow`): the grid of signed bodies, transaction IDs one nanosecond
  apart, what is sent, and the bytecode flow on top.
* **Key trees** (`KeyTrees`) and **NFT approvals** (`NftApprovals`): a mutually recursive encoder and decoder,
  and entries merged in place that refine a coverage relation.

Code that updates fields or buffers is modelled by classes, arrays and loops proved against specification
functions; code made of expressions by functions. Time is a clock that may jump forward at every reading,
node choice is arbitrary, replies of the network are an input. Hash functions, word lists, curve points and DER
parsing are parameters. 64-bit wrap-around is written out where it can occur.

## Where the code and its description disagree

The model follows the code. Each point is a theorem below.

* Every request of a frozen transaction hands out the first signed body: the position it is taken from never
  moves (transaction.go:743). It is the body asked for exactly with the first ID and at a node like the first
  (`MakeRequest`, `RightBodyExactly`); already the second of two nodes is sent a body naming the first
  (`WrongNode`). An append therefore sends its first chunk over and over under one ID. A network that refuses
  repeated IDs and misdirected bodies takes a whole run exactly when the contents fit one chunk and its node is
  like the first (`AcceptedExactlyWhen`); one that takes every request leaves the file with the contents exactly
  when they fit one chunk or repeat with the chunk size (`UploadedExactlyWhen`).
* The getters for 16-, 24-, 40-, 48- and 56-bit signed numbers are unsigned, so they return the number added exactly
  when it is not negative (`IntReads`); -1 added as `int16` is read as 65535 (`MinusOneReadsUnsigned`).
* The public `SetNetwork` files new nodes under their URL while nodes are recognised by account ID, so it keeps no
  node and forgets all backoff (`SetNetworkByAddress`).
* A failure keeps a node out for its minimum backoff exactly when its maximum is at least that
  (`Node.IncreaseBackoff`). A change of transport security loses the maximum, so from then on every failed node is
  due the moment after (`FailureOfCopy`, `FailAfterSecure`), however often it fails (`CopiedBackoffCollapses`).
* The delay between attempts is announced as doubling; the shared minimum is doubled as well, so it quadruples
  (`DelaysQuadruple`).
* A failing node that is not listed as healthy delists whichever node comes first, and panics when none is listed:
  exactly the failed node is delisted if and only if it was listed (`DelistsExactly`). A pinned request to a delisted
  node that is due again is such a case (`BystanderDelisted`).
* The adders for unsigned integers of 16, 24, 40, 48 and 56 bits register the signed type, and those for arrays of
  8-, 16- and 24-bit signed integers the array of 32 bits, so such a call selects another function: the number's own
  exactly for the other types (`SelectsOwnType`, `ArraySelectsOwnType`).
* An address argument of a wrong length is dropped without an error (`AddAddress`, `AddAddressArray`).
* Signed numbers narrower than 256 bits are padded with zeros, not with their sign (`SignExtension`,
  `SignedAdders`).
* The CRC leaves out the last byte (`Crc8.SingleByteDetected`).
* All-serials approvals drop the owner they are given, approvals by different owners are filed under the first, and
  each all-serials approval overwrites the delegating spender (`NameOfEntry`, `DelegateLost`). Nothing is misfiled
  exactly when all approvals for a token and spender name one owner and one delegating spender (`FaithfulExactly`).
* A delegatable contract key is written as a plain contract key (`DelegatableLost`, `OnlyDelegatableLost`). What was
  read is written as the same message exactly when it has none, nor encoded keys or contracts without a number
  (`WriteBack`).

## Model

| member | source | states |
|---|---|---|
| Mnemonics.ConvertRadix | mnemonic.go:269-287 | the buffer holds the base-`toRadix` digits, cut to bytes, of the number the input spells in base `fromRadix` |
| Mnemonics.LegacyCapacity | mnemonic.go:207-208 | 22 legacy words and 33 bytes have equally many values |
| Mnemonics.Bip39Capacity | mnemonic.go:220-223 | 24 BIP-39 words and 33 bytes have equally many values |
| Mnemonics.ToLegacyEntropy | mnemonic.go:207-218 | the masking loop yields the entropy and the checksum byte of the converted indices |
| Mnemonics.Indices | mnemonic.go:138-189 | succeeds exactly for 22 legacy words or 24 BIP-39 words, all listed, with the indices that spell them; the error says which condition failed |
| Mnemonics.LegacyValidate | mnemonic.go:118-136 | accepts exactly the phrases that some index list passing the checksum spells; of the others it says whether the length, a word or the checksum is wrong |
| Mnemonics.LegacyDataLossless | mnemonic.go:207-208 | 22 indices survive the trip through 33 bytes |
| Mnemonics.LegacyBijection | mnemonic.go:118-136 | an index list is accepted with a given entropy exactly when it is the list that entropy is written as: phrases and entropies correspond one to one |
| Mnemonics.PhraseAccepted | mnemonic.go:118-136 | every 32-byte entropy has an accepted phrase that reads back as it |
| Mnemonics.EntropyDeterminesPhrase | mnemonic.go:118-136 | two accepted phrases of equal entropy are the same words |
| KnownPhrases.ZeroPhrase | mnemonic.go:118-136 | the phrase of 32 zero bytes is the indices 3373 and 722 eleven times over; it is accepted and reads back as them |
| PackedPhrases.BytesToBits | mnemonic.go:191-205 | the bits are the binary digits of the bytes, highest first |
| PackedPhrases.ConcatWords | mnemonic.go:221-239 | fails exactly on an unknown word; otherwise the bits are the indices as 11-bit digits |
| PackedPhrases.PackBits | mnemonic.go:244-252 | setting bits one by one packs eight digits to a byte |
| PackedPhrases.SameBits | mnemonic.go:261-265 | the comparison loop decides whether the trailing bits equal the hash's leading bits |
| PackedPhrases.ToLegacyEntropy2 | mnemonic.go:220-267 | the outcome for any phrase: unknown word, checksum mismatch, or the packed entropy |
| PackedPhrases.PackingIsRadix | mnemonic.go:220-252 | the packed bytes are the base-2048 value of the indices with the checksum bits divided away |
| PackedPhrases.PackingGroups | mnemonic.go:220-252 | for 3k words: 4k bytes, the value of the indices divided by 2 to the k |
| PackedPhrases.ChecksumIsRemainder | mnemonic.go:253-265 | for any number of words, the checksum holds exactly when the value of the indices modulo 2 to the number of checksum bits is the hash's leading bits as a number |
| PackedPhrases.TwentyFourWords | mnemonic.go:220-287 | for 24 words bit packing agrees with radix conversion: its first 32 bytes are the entropy, and the checksum holds exactly when byte 33 is the hash's first byte |
| Crc8.Compute | mnemonic.go:289-307 | the loops compute the register over all bytes but the last |
| Crc8.RegisterLinear | mnemonic.go:293-304 | the register is linear in its start and its data |
| Crc8.UndetectedErrors | mnemonic.go:289-307 | two inputs of one length collide exactly when their difference leaves a zero register |
| Crc8.SingleByteDetected | mnemonic.go:289-307 | changing one byte changes the CRC unless it is the last byte |
| CrcLaws.RegisterIsFed | mnemonic.go:293-304 | shifting byte by byte is feeding the register the bits of the data, lowest first |
| CrcLaws.EscapesExactly | mnemonic.go:289-307 | a change escapes exactly when its bits, over the bytes before the last, are a multiple of x^8+x^6+x^3+x^2+1 |
| CrcLaws.ShortestEscape | mnemonic.go:289-307 | changing two neighbouring bytes by 0x65 and 0x01 escapes |
| CrcLaws.ZeroChecksum | mnemonic.go:289-307 | the CRC of 32 zero bytes is 0xd2 |
| EntityChecksum.CheckChecksum | entity_id.go:102-151 | the loops compute the checksum of the address under the ledger |
| EntityChecksum.SumSymbols | entity_id.go:128-136 | one pass computes the weighted sum and both alternating sums |
| EntityChecksum.PrintLetters | entity_id.go:145-148 | the last loop spells a number below 26^5 as five letters |
| EntityChecksum.SameChecksum | entity_id.go:102-151 | two checksums agree exactly when the totals before mixing agree, 1000003 being a unit modulo 26^5 |
| EntityChecksum.Collision | entity_id.go:102-151 | under one ledger two addresses collide exactly when length mod 5, both alternating sums and the weighted sum agree |
| EntityChecksum.SubstitutionDetected | entity_id.go:119-142 | replacing a symbol changes the checksum exactly when the symbols differ |
| EntityChecksum.TranspositionDetected | entity_id.go:119-142 | swapping neighbours changes the checksum exactly when they differ |
| EntityChecksum.LengthDetected | entity_id.go:142 | lengths that differ modulo five never collide |
| EntityChecksum.SameAddress | entity_id.go:138-143 | for one address the ledger shares alone decide |
| EntityChecksum.LedgerByteDetected | entity_id.go:138-143 | ledger IDs of one length differing in one byte never collide on an address |
| ChecksumLaws.ChecksumSays | entity_id.go:119-148 | read back from its letters, a checksum is the length modulo 5, the two alternating sums modulo 11 and the address in base 31 modulo 26^3, in this order, plus the ledger ID in base 31 |
| ChecksumLaws.EvenSymbolMoves | entity_id.go:128-143 | replacing a symbol at an even position moves it by 11 * 26^3 for the even sum, besides the share in base 31 |
| ChecksumLaws.OddSymbolMoves | entity_id.go:128-143 | at an odd position by 26^3 for the odd sum |
| ChecksumLaws.Account123 | account_balance_query_unit_test.go:34-60 | 0.0.123 is `vfmkw` on mainnet, `esxsf` on testnet and `ogizo` on previewnet |
| ChecksumLaws.Account12 | entity_id.go:102-151 | 12.345.6789 is `aoyyt`, `kckgc` and `tpvnl` |
| EntityIds.AtoiOfDecimal | id.go:130-143 | a printed number parses back exactly when it is below 2^63 |
| EntityIds.PrintedMatches | entity_id.go:65-67 | the pattern finds the three components and the suffix of every printed ID |
| EntityIds.SuffixAccepted | entity_id.go:62-91 | a printed ID with a five-letter suffix verifies exactly when the suffix is its checksum |
| EntityIds.ParseInvertsPrint | file_id.go:56-68 | parsing a printed file ID returns it exactly when its numbers are below 2^63 |
| EntityIds.ParseInvertsPrintWithChecksum | file_id.go:144-157 | the same with the checksum printed; larger numbers are refused by the printer |
| EntityIds.ParseInvertsPrintWithoutLedger | file_id.go:144-157 | what a client without a ledger ID but with a network prints |
| EntityIds.ParsedIsPrintable | file_id.go:56-68 | every parsed ID has components in range, so it prints |
| EntityIds.ValidateAfterPrint | file_id.go:70-95 | a printed and parsed ID validates on another ledger exactly when the checksums coincide or the ID is zero |
| EntityIds.PrintParseValidate | file_id.go:70-95 | it validates on its own ledger, and on a ledger differing in one byte only if it is zero |
| EntityIds.StandardLedgersSeparate | ledger_id.go:83-99 | mainnet, testnet and previewnet checksums of an address are pairwise distinct |
| AddressPattern.MatchExactly | entity_id.go:65-67 | at the start of a string the pattern matches exactly three numerals without leading zeros, dots between them, and nothing or a dash and five small letters behind |
| AddressPattern.FindLeftmost | entity_id.go:65-67 | the leftmost place that matches is taken |
| AddressPattern.ParsedExactly | id.go:112-146 | the other parser reads exactly three numbers between two dots, and keeps whatever follows the first dash |
| KnownIds.AddressTakenApart | entity_id.go:62-91 | 0.0.123 on testnet with its checksum, without one and with mainnet's: all parts of the result |
| KnownIds.ChecksumValidated | account_balance_query_unit_test.go:34-60 | 0.0.123-esxsf is valid on testnet and a mismatch on mainnet; 0.0.123-rmkykd is refused, and the right checksum named |
| SolidityAddresses.ToSolidityAddress | id.go:161-167 | the buffer writes print as the packed ID in hexadecimal |
| SolidityAddresses.AddressRoundTrip | id.go:148-167 | an ID comes back from its address exactly when its shard fits 32 bits |
| SolidityAddresses.PrintedAddress | id.go:148-167 | an address that parses prints as itself in lower case |
| SolidityAddresses.ReadsExactly | id.go:148-159 | an address is read exactly when it is forty hexadecimal digits; what is not hexadecimal is reported as that |
| KnownCalls.AddressSpelt | id.go:161-167 | shard, realm and number take eight, sixteen and sixteen digits, in this order |
| AbiSelector.ContractFunctionSelector.AddParam | contract_function_selector.go:129-141 | the parameter string stays the comma-separated list of the types added |
| AbiSelector.ContractFunctionSelector.Build | contract_function_selector.go:713-726 | four bytes of the hash of name and parameter list; the name is kept |
| AbiSelector.ParamListInjective | contract_function_selector.go:129-141 | different type lists give different parameter strings |
| KnownCalls.SignatureSpelt | contract_function_selector.go:129-141 | a signature with an array, letter by letter |
| AbiEncoding.HeadAt | contract_function_parameters.go:1097-1131 | word `i` of the encoding is the head of argument `i` |
| AbiEncoding.TailAt | contract_function_parameters.go:1097-1131 | each dynamic value lies whole at its offset |
| KnownCalls.CallSpelt | contract_function_parameters.go:1097-1131 | the encoding of a number, a byte string and a truth value, byte by byte |
| KnownCalls.ArraysSpelt | contract_function_parameters.go:1140-1201 | the encoding of an array of one string, with the offset counted from behind the count, and of one number |
| KnownCalls.MinusOne | contract_function_parameters.go:88-174 | minus one sets one byte for 8 bits, two for 16, four for 24 and 32, eight for 40 to 64 |
| AbiParameters.ContractFunctionParameters.AddBool | contract_function_parameters.go:47-60 | the type `bool` and one more argument, and `GetBool` gives the truth value back whatever is added around it |
| AbiParameters.ContractFunctionParameters.AddNumber | contract_function_parameters.go:88-526 | the type its adder registers and one more argument; whatever is added around it, its getter gives the number back exactly when the number is not negative or the getter is a signed one |
| AbiParameters.ContractFunctionParameters.AddWide | contract_function_parameters.go:176-427 | the type of the width and sign, and one more argument; whatever is added around it, its getter gives the bytes back exactly when they have the width of the type |
| AbiParameters.ContractFunctionParameters.AddWord | contract_function_parameters.go:429-438 | the type given and one more argument; whatever is added around it, its getter gives the word back exactly when it has 32 bytes |
| AbiParameters.ContractFunctionParameters.AddAddress | contract_function_parameters.go:1029-1050 | adds the type `address` and an argument, read back whatever is added around it, exactly for forty hexadecimal digits; otherwise nothing, reporting only what is not hexadecimal |
| AbiParameters.ContractFunctionParameters.AddBytes | contract_function_parameters.go:991-1016 | the buffer writes add the type given and one argument that `GetBytes` gives back whatever is added around it |
| AbiParameters.ContractFunctionParameters.AddBytesArray | contract_function_parameters.go:1052-1061 | an array type and one more argument, whose elements are all recovered by following their offsets, whatever is added around it |
| AbiParameters.ContractFunctionParameters.AddNumberArray | contract_function_parameters.go:792-942 | the array type its adder registers and one more argument; its numbers are recovered exactly when all fit their width unsigned |
| AbiParameters.ContractFunctionParameters.AddWordArray | contract_function_parameters.go:887-904 | an array type and one more argument, whose 32-byte elements are recovered |
| AbiParameters.ContractFunctionParameters.AddAddressArray | contract_function_parameters.go:963-989 | adds the type `address[]` and all addresses or, at the first fault, nothing; again only hexadecimal faults are reported |
| AbiParameters.SelectsOwnType | contract_function_parameters.go:88-526 | after any arguments, adding a number selects the function for its own type exactly when that is signed or has 8, 32 or 64 bits |
| AbiParameters.ArraySelectsOwnType | contract_function_parameters.go:792-942 | for arrays of numbers exactly when the type is unsigned or has 32 bits or more |
| AbiParameters.TypesSpelt | contract_function_parameters.go:451-460 | the names registered, 16 bits unsigned as `int16` and an array of 8 bits signed as `int32[]` among them |
| AbiParameters.ContractFunctionParameters.Build | contract_function_parameters.go:1097-1131 | without a name the encoding; with one its four selector bytes in front of exactly the same |
| AbiParameters.WriteArguments | contract_function_parameters.go:1112-1128 | the writing pass fills the buffer behind its prefix completely: no gap, overlap or overrun |
| AbiParameters.BytesArray | contract_function_parameters.go:1140-1201 | sizing and writing pass agree: count, offsets and padded elements tile the buffer |
| AbiParameters.ElementBytes | contract_function_parameters.go:1155-1176 | an element's zeroed buffer ends up as its length word, bytes and padding |
| AbiRoundTrip.NumberOfEncode | contract_function_result.go:66-98 | a fixed-width number reads back reduced to its width |
| AbiRoundTrip.BytesOfEncode | contract_function_result.go:340-344 | `GetBytes` returns exactly the bytes added |
| AbiRoundTrip.BytesArrayOfEncode | contract_function_parameters.go:1140-1201 | following every offset from behind the count word recovers every element |
| AbiRoundTrip.NumberArrayOfEncode | contract_function_parameters.go:868-885 | reading word by word recovers every number reduced to its width |
| AbiRoundTrip.IntOfEncode | contract_function_result.go:66-98 | what a getter for a signed type returns: the number itself from `GetInt8`, `GetInt32` and `GetInt64`, its residue from those for 16, 24, 40, 48 and 56 bits |
| AbiRoundTrip.MinusOneReadsUnsigned | contract_function_result.go:70-72 | -1 added as `int16` is read as 65535 |
| AbiRoundTrip.ReadsBack | contract_function_result.go:56-344 | in any argument list, the getter for an argument's type gives the value added exactly when that getter keeps it: negative numbers need a signed getter, bytes their type's width |
| AbiRoundTrip.AddedIsReadable | contract_function_result.go:56-344 | an argument appended to a list reads back as just said whatever is appended later |
| AbiRoundTrip.EncodingInjective | contract_function_parameters.go:1097-1131 | two lists of values of the same kinds with one encoding are equal, negative numbers included |
| AbiRoundTrip.SignExtension | contract_function_parameters.go:88-427 | a word with the low bytes of a number narrower than 256 bits equals the standard's sign-extended one exactly when the number is not negative |
| AbiRoundTrip.SignedAdders | contract_function_parameters.go:88-427 | so does the argument every adder for a signed type of 8 to 248 bits appends |
| ManagedNodes.Node.IsHealthy | managed_node.go:116-122 | healthy when never failed or past its readmission time at the moment of looking |
| ManagedNodes.Node.InUse | managed_node.go:111-114 | one more use, at the present time |
| ManagedNodes.Node.IncreaseBackoff | managed_node.go:124-132 | doubles the backoff up to its maximum, 64-bit wrap-around included; the node is then kept out for its minimum backoff exactly when its maximum is at least that |
| ManagedNodes.Node.DecreaseBackoff | managed_node.go:134-139 | halves the backoff down to its minimum and stays in range |
| ManagedNodes.WrapsWhole | managed_node.go:124-126 | wrapping around changes a duration by a multiple of 2^64 only |
| ManagedNodes.FailuresDouble | managed_node.go:124-132 | k failures in a row multiply the backoff by 2 to the k until the maximum caps it |
| ManagedNodes.SuccessUndoesFailure | managed_node.go:124-139 | exactly when a success restores the backoff before a failure |
| ManagedNodes.CopiedBackoffCollapses | node.go:207-245 | under the maximum a copied node is left with, the backoff is zero after any number of failures in a row but none |
| ManagedNodes.FailureOfCopy | node.go:207-245 | a node copied for another transport security is due the moment after it fails, and not kept out for its minimum backoff |
| ManagedNodes.PortsSwitched | managed_node_address.go:58-95 | the ports switched, in both directions; switching over and back restores every address not already on the far side |
| ManagedNodes.ParseAddress | managed_node_address.go:36-52 | what parses is a nonempty host, a colon, and digits whose number modulo 2^32 is the port |
| ManagedNodes.ParsesExactly | managed_node_address.go:36-52 | an address is exactly a host without blanks, a colon, and digits below 2^64, cut to 32 bits |
| ManagedNodes.AddressRoundTrip | managed_node_address.go:36-52 | a printed address with a port below 2^64 parses back to itself exactly when its host is nonempty and without blanks and its port below 2^32 |
| ManagedNetworks.CreateNetworkFromNodes | managed_network.go:233-251 | the index groups the list by key in order, and the healthy list is an in-order sublist holding every node that was due |
| ManagedNetworks.IndexedIsFirst | network.go:83-86 | the index answers what searching the list for the first node of an account would |
| ManagedNetworks.GetNodesToRemove | managed_network.go:282-292 | exactly the positions of unwanted nodes, strictly descending |
| ManagedNetworks.RemoveNodes | managed_network.go:64-84 | deleting in place, last first, is the order-preserving filter by key |
| ManagedNetworks.NodesToAdd | managed_network.go:86-100 | appends every entry, once, unless its key and its address both occur among the kept nodes |
| ManagedNetworks.ManagedNetwork.SetNetwork | managed_network.go:63-110 | the new list is the kept nodes followed by the added ones and the views agree again; only an open channel of a dropped node can make it fail, and then none of the lists change |
| ManagedNetworks.ReplacedExactly | managed_network.go:63-110 | which nodes a replacement leaves: old ones whose key is wanted, and every new one but those whose key is an old node's and whose address is that of an old node still wanted |
| ManagedNetworks.ManagedNetwork.ReadmitNodes | managed_network.go:112-138 | every due node is listed, nothing listed is lost, the views still agree |
| ManagedNetworks.ManagedNetwork.GetNode | managed_network.go:187-197 | the node drawn is listed and due; none is drawn exactly when none is listed, and then no node was due |
| ManagedNetworks.ManagedNetwork.GetNodeForAccountID | network.go:83-86 | the first node of the account |
| ManagedNetworks.ManagedNetwork.IncreaseBackoff | network.go:65-81 | marks the failure and delists; the failed node alone loses its place exactly when it had one, otherwise the first listed node loses its own; the views still agree |
| ManagedNetworks.DelistsExactly | network.go:65-81 | the same of the list: exactly the failed node is taken off it if and only if it was on it |
| ManagedNetworks.ManagedNetwork.SetTransportSecurity | managed_network.go:253-280 | every node becomes a copy on the other port with its history, in order, listed ones without their channel, and the views agree; it fails only when the setting changes and a listed node's channel is open, and then the lists stay |
| ManagedNetworks.CloseAll | managed_network.go:223-231 | all channels end up closed unless closing an open one fails |
| ManagedNetworks.ManagedNetwork.SetNetworkByAddress | network.go:39-51 | the new nodes are exactly one unused, healthy node for every address, with the network's minimum as its backoff and an hour as its maximum: nothing in use is kept; a bad address is reported exactly when some URL does not parse, and otherwise only an open channel can make it fail |
| ManagedNetworks.ManagedNetwork.GetNetwork | network.go:53-63 | every address with the account of the last node there |
| ManagedNetworks.GetInvertsSet | network.go:39-63 | the network that was set comes back when no two URLs name one address |
| NetworkRuns.FailAfterReplace | managed_node.go:78-90 | a node of a network just set stays out, after its first failure, for twice the network's minimum but no more than an hour, so at least for the minimum |
| ManagedNetworks.ManagedNetwork.constructor | managed_network.go:45-58 | a new network is empty, in agreement with itself, and has a minimum backoff of 8 seconds |
| NetworkRuns.Step | managed_network.go:63-280 | each operation, a whole request included, takes what is seen of the network one step of the relation `Next`, which says what it does to the lists, to every node's state and to the clock, and what it comes to |
| NetworkRuns.Run | managed_network.go:63-280 | so does every sequence of them, from what is seen before to what is seen after; and no node followed through it, copies included, is drawn or called before the readmission time its latest failure set, in whichever event |
| RunLaws.LineReadmits | managed_node.go:124-132 | over any run and for any node followed through it, the readmission time is that of its latest failure, or the one it began with: nothing else changes it, and copies keep it |
| RunLaws.NeverEarly | executable.go:131-167 | from any moment of a run on, a node is drawn only past its latest failure's readmission time, and a request that selects it calls it exactly then |
| RunLaws.OneHeir | managed_network.go:253-280 | every node that is not dropped lives on after an event as exactly one node |
| RunLaws.ReadmitOfLog | executable.go:159-219 | within a request, likewise, the latest failure decides the readmission time |
| RunLaws.FirstFailure | managed_node.go:78-90 | the same of any two successive events of a run, a replacement and a failure |
| RunLaws.MinKept | network.go:39-51 | nothing in a run changes the network's minimum backoff |
| NetworkRuns.BystanderDelisted | network.go:65-81 | a pinned request to a delisted node that is due again makes one attempt, which fails; the other node, which never failed and was listed when it began, is off the list though it is due |
| NetworkRuns.FailAfterSecure | managed_network.go:253-280 | a node of a network whose transport security was switched is due the moment after its next failure; without an open channel the switch succeeds |
| Execution.SelectNode | executable.go:122-157 | a pinned request takes its current account's node, any other a listed, due one; nothing is selected exactly for an account that is not listed, a locked list without accounts, or an empty healthy list |
| Execution.AskNode | executable.go:159-219 | the node's new counters, backoff, channel and readmission time, and how many nodes were listed; an unhealthy node is not called; a failure delists, and panics exactly when nothing is listed |
| Execution.HandleReply | executable.go:202-249 | which attempts end the loop and with what, which error, delay and new ID the others leave |
| Execution.Execute | executable.go:91-261 | at most the allowed attempts, in order of time; the first that ends the loop decides, a panic included; fewer attempts than allowed mean that one ended the loop or nothing could be selected; a pinned request finds listed what its failures have left of the list it began with, any other at least the node drawn; every node ends in the state its attempts call for and met each in the state logged; a failed node is not called before its readmission time; unpinned requests never meet an unhealthy node, pinned ones go round their accounts; delays and the shared minimum |
| ExecutionLaws.ResultIsFirstFinished | executable.go:221-249 | a result is that of the first finished response and its account; no finished response is passed over |
| ExecutionLaws.OutcomeExactly | executable.go:202-261 | the loop goes on after an unhealthy node, a failure with something listed, a status to retry or an expired one that gets a new ID, and after nothing else; the reply it ends at gives the outcome, and without one the latest cause |
| ExecutionLaws.RefusedExactly | executable.go:226-246 | a status error is returned exactly when the last reply is an error, or expired without a new ID, with that reply's payload |
| ExecutionLaws.FatalExactly | executable.go:202-219 | giving up names a fatal gRPC error and its attempt exactly when the last reply is one; otherwise it comes after the last attempt allowed, with the latest cause |
| ExecutionLaws.PanicsExactly | executable.go:122-219 | the loop panics exactly when attempts are left and no node could be selected, or, for a pinned request alone, at the failure after as many as there were nodes listed when it began |
| ExecutionLaws.PinnedPanicsExactly | network.go:65-86 | a pinned request whose accounts are all known panics exactly at that failure |
| Execution.DelistedLength | network.go:65-81 | each failure takes one node off the list while there is one |
| ExecutionLaws.CauseGiven | executable.go:252-261 | giving up names a cause exactly when a retried error or status was met; failing channels leave none |
| ExecutionLaws.LatestCause | executable.go:206-225 | the cause is that of the latest retried gRPC error or status |
| ExecutionLaws.EachSlept | executable.go:159-225 | unhealthy nodes and statuses to retry are slept over once each, in their turn, for the delay of their number |
| ExecutionLaws.NewIdForEachExpiry | executable.go:226-238 | a new ID is made for each expired status, when it can be, and for nothing else |
| ExecutionLaws.TurnsMoveOn | executable.go:122-157 | a pinned request goes on to its next account after an attempt that reached its node, and stays after one that did not |
| ExecutionLaws.CountersConserved | executable.go:159-219 | the use counters of all nodes together grow by the number of attempts, their failure counters by the number that failed |
| ExecutionLaws.CountersOfState | executable.go:159-219 | the uses and failures of a node grow by its own attempts and its own failed ones; without a failure its readmission time stays |
| ExecutionLaws.BackoffAfter | managed_node.go:124-139 | a failure and then a response leave the backoff as it was unless a bound cut it short, and the readmission time the failure set |
| ExecutionLaws.NothingLearnt | executable.go:159-219 | a fatal gRPC error or an unhealthy node changes no backoff |
| ExecutionLaws.MinDoubles | executable.go:115-120 | the shared minimum doubles every attempt while it fits 64 bits |
| ExecutionLaws.DelaysQuadruple | executable.go:263-268 | for any positive minimum whose doublings fit 64 bits, the delay is the cap or, to within the truncation to milliseconds, the minimum times 4 to the attempt; it is the documented one exactly at the start, below a millisecond, or once that has reached the cap |
| ExecutionLaws.DefaultDelays | client.go:255-256 | at a client's defaults the first delays are 250, 1000, 4000 and 8000 milliseconds |
| FileAppend.FromProtobuf | transaction_id.go:185-205 | a deep copy with a time of its own and the same wire form |
| FileAppend.ChunksTile | file_append_transaction.go:353-380 | the chunks are nonempty, full but for the last, and laid end to end the contents |
| FileAppend.GridEntry | file_append_transaction.go:368-404 | entry c*N+j carries chunk c, node j and the ID c nanoseconds later, otherwise the same |
| FileAppend.QuotientIsChunkCount | file_append_transaction.go:287-288 | the number of requests is the number of chunks |
| FileAppend.FileAppendTransaction.InitTransactionID | transaction.go:452-468 | the ID in use is taken; without one, one is made up exactly when the client has an operator, for the operator's account, not scheduled and without a nonce |
| FileAppend.FileAppendTransaction.SignRow | file_append_transaction.go:387-399 | one snapshot for every node |
| FileAppend.FileAppendTransaction.SignChunks | file_append_transaction.go:361-405 | the grid, one fresh ID per chunk, and the shared ID moved on by as many nanoseconds |
| FileAppend.FileAppendTransaction.FreezeWith | file_append_transaction.go:330-408 | refuses exactly as stated, otherwise leaves the grid of the chunks, the first under the caller's ID or, without one, an ID of the operator; the caller's own ID has moved on; freezing twice changes nothing |
| FileAppend.FreezesExactly | file_append_transaction.go:330-360 | freezing is refused exactly without nodes or a client, without an ID or an operator, or for more bytes than the chunks allowed hold |
| FileAppend.FileAppendTransaction.BuildTransaction | transaction.go:704-753 | brings the ID of the looked-up body up to date and hands out the first body |
| FileAppend.FileAppendTransaction.EntryUpToDate | transaction.go:563-569 | the index a request computes is in range and names the current chunk, ID and node |
| FileAppend.FileAppendTransaction.MakeRequest | transaction.go:563-569 | bringing it up to date changes nothing, and the first body is handed out; it is the one asked for exactly with the first ID and a node like the first |
| FileAppend.FileAppendTransaction.SendChunk | transaction.go:571-602 | how requests move the node and ID positions round, and which node the taken request, always the first body, went to |
| FileAppend.FileAppendTransaction.SendAll | file_append_transaction.go:287-323 | as many requests as chunks, all with the first body, each at the node the count of nodes reached leads to; an error exactly when a chunk is not delivered, after as many requests as got through |
| FileAppend.FileAppendTransaction.ExecuteAll | file_append_transaction.go:259-324 | the same with freezing in front: all that is sent is under the caller's ID or else one of the operator, to the caller's nodes or else the client's; an error exactly when freezing is refused, the contents are empty, or a chunk is not delivered; without one, a network that refuses repeated IDs and misdirected bodies takes all requests exactly when there is one chunk and the node that ends up with it is like the first |
| FileAppend.UploadedExactlyWhen | transaction.go:743-752 | sending the first chunk for every chunk spells the contents exactly when they fit one chunk or repeat with the chunk size |
| FileAppend.FileReceives | file_append_transaction.go:259-324 | the same of the requests a successful run sends, all of them taken |
| FileAppend.RightBodyExactly | transaction.go:563-569 | the first body is the one for chunk c and node j exactly when c is the first chunk and node j is like the first |
| FileAppend.WrongNode | transaction.go:743-752 | with one chunk already, the second of two nodes is sent a body naming the first |
| FileAppend.FileAppendTransaction.AcceptedExactlyWhen | status.go:31-39 | such a network takes a whole run exactly when the contents fit one chunk and the node the first request ends at, counted from where the list stands, is like the first; then the file receives them |
| FileAppend.SecondChunkLost | transaction.go:743-752 | two bytes in chunks of one do not arrive |
| ContractFlow.ContractCreateFlow.SplitBytecode | contract_create_flow.go:162-172 | the parts are the bytecode; the second is used only once the first is full |
| ContractFlow.ContractCreateFlow.CreateFileAppendTransaction | contract_create_flow.go:189-199 | a fresh append of the second part with the default limits |
| ContractFlow.ContractCreateFlow.UploadFile | contract_create_flow.go:234-263 | the first reason, in order, for the file stages to fail: the file was not created, more than 21 chunks' bytes, an append not delivered; what was created stays; without a failure the file is the bytecode exactly when what exceeds the first part fits one append or repeats |
| ContractFlow.WithinLimit | file_append_transaction.go:353-359 | the append stays within 20 chunks exactly up to 2048 + 20*2048 bytes |
| ContractFlow.SplitThenChunked | contract_create_flow.go:162-172 | first part and chunks laid end to end are the bytecode |
| KeyTrees.ContractIDRoundTrip | contract_id.go:185-222 | a contract ID comes back without checksum, and without its number when it has an EVM address |
| KeyTrees.ToProtoKey | key_list.go:89-115 | the recursive encoder, its loops included, computes the wire form |
| KeyTrees.EncodingFails | key_list.go:89-93 | the first key that cannot be encoded decides |
| KeyTrees.KeyFromProtobuf | crypto.go:47-85 | the decoder computes the key or the error |
| KeyTrees.KeyListFromProtobuf | key_list.go:128-148 | so does its loop over a list |
| KeyTrees.DecodingFails | key_list.go:134-139 | the first key that cannot be read decides |
| KeyTrees.ReadBack | crypto.go:47-85 | reading back what was written succeeds exactly for readable trees and gives the normal form |
| KeyTrees.CanonicalIsFixed | crypto.go:701-723 | a tree is its own normal form exactly when nothing in it is rewritten: no private or delegatable key, thresholds from -1 to 2^32-1, plain contract IDs, one kind to a public key |
| KeyTrees.RoundTripExact | crypto.go:47-85 | a tree survives the round trip exactly when it is readable and in normal form |
| KeyTrees.NormalFormStable | key_list.go:89-115 | normal forms are stable and encode to the same message |
| KeyTrees.OnlyDelegatableLost | delegatable_contract_id.go:201-203 | a tree that was read is in normal form exactly when it holds no delegatable contract |
| KeyTrees.DelegatableLost | crypto.go:79-80 | every delegatable contract key read is written again as a plain contract key |
| KeyTrees.DelegatablesRead | crypto.go:76-80 | a tree that was read holds a delegatable contract exactly when the message does |
| KeyTrees.WriteBack | crypto.go:47-85 | what was read is written as the same message exactly when its keys are raw, its contracts plain with a number or an address, and its lists there |
| KeyTrees.WrittenAs | crypto.go:701-723 | which keys are written as ECDSA keys; contract numbers and thresholds as they appear on the wire; which lists carry a threshold |
| KeyTrees.EncodedAt | key_list.go:89-115 | the keys of a list are written one by one, in order |
| KeyTrees.KeysRefused | crypto.go:47-85 | what is refused of a single message, and with which error |
| NftApprovals.AccountAllowanceApproveTransaction.Find | account_allowance_approve_transaction.go:141-143 | the search ends at the first entry for the token and spender, or behind the list |
| NftApprovals.AccountAllowanceApproveTransaction.ApproveTokenNftApproval | account_allowance_approve_transaction.go:138-166 | the entries change by one approval of one serial, in place or at the end |
| NftApprovals.AccountAllowanceApproveTransaction.ApproveAllSerials | account_allowance_approve_transaction.go:184-205 | the entries change by one approval of all serials |
| NftApprovals.AccountAllowanceApproveTransaction.ApproveTokenNftAllowanceAllSerials | account_allowance_approve_transaction.go:211-213 | the owner given is not recorded |
| NftApprovals.EntriesIndependent | account_allowance_approve_transaction.go:138-205 | an entry depends on the approvals for its own token and spender alone, in their order |
| NftApprovals.RunUnique | account_allowance_approve_transaction.go:138-205 | every run leaves at most one entry for a token and spender, without repeated serials |
| NftApprovals.CoverageExact | account_allowance_approve_transaction.go:138-205 | a serial is approved for a spender exactly when some call asked for it |
| NftApprovals.SerialsOfEntry | account_allowance_approve_transaction.go:138-205 | an entry lists the serials asked for since the last all-serials approval for its token and spender, each once, in the order first asked; it approves all exactly when some call did |
| NftApprovals.NameOfEntry | account_allowance_approve_transaction.go:138-205 | an entry carries the owner of the first approval for its token and spender, and the delegating spender of the last all-serials one |
| NftApprovals.FaithfulExactly | account_allowance_approve_transaction.go:138-205 | owner by owner and delegating spender by delegating spender the transaction says what was asked exactly when the approvals for each token and spender name one owner and one delegating spender |
| NftApprovals.DelegatesKept | account_allowance_approve_transaction.go:184-205 | no delegating spender named is lost exactly when each is that of the last all-serials approval for its token and spender |
| NftApprovals.DelegateLost | account_allowance_approve_transaction.go:184-205 | a second all-serials approval without a delegating spender takes the first one's away |

## Left out

- Word lists: only their length and that legacy words are distinct; joining and splitting phrases at blanks, and the BIP-39 validity test of `NewMnemonic`, which is a library's.
- PackedPhrases.ToLegacyEntropy2: phrases of more than 768 known words, whose checksum would be longer than the hash: the comparison then indexes past it.
- EntityIds: IDs with an alias or EVM address (`_AccountIDFromString`, `_ContractIDFromString`), and non-ASCII addresses, whose length counts bytes while symbols are counted in characters.
- `AddInt32Array` and `AddBytes32Array`, which allocate too small a buffer, `AddFunction`, whose 36 bytes are cut to 32, and `AddInt256`-style callers changing a slice after adding it.
- AbiResults: slices beyond a result's length but within its capacity, which Go allows; decoding of arrays is the offset scheme itself, as the SDK has no array getter.
- gRPC channels, TLS, `Client` construction, JSON configuration, logging, sleeping and the mirror network.
- Hashes, HMAC, key derivation, signatures and curve arithmetic: opaque parameters. Keystore, PEM and DER parsing.
- `Hbar` conversions, fee and info records, queries, and the per-transaction setters and builders: field plumbing.
- `AccountID.Compare`, address books, `_SetMinBackoff` and `_SetMaxBackoff` during a run, `_GetNodeAccountIDsForExecute`.
- ManagedNetworks.ManagedNetwork.GetNodeForAccountID: requires a listed account, because the SDK indexes an empty slice before it can return its error.
- ManagedNodes.Node.InUse: does not model the 64-bit wrap-around of the use counter.
- Execution.Execute: does not model floating-point rounding of the delay, which is taken as exact, nor deadlines.
- FileAppend.FileAppendTransaction.FreezeWith: a chunk size that is not positive, for which freezing divides by zero or miscounts, an ID without a valid start, and the checksum test of the file ID.
- FileAppend.FileAppendTransaction.BuildTransaction: signatures, and the node ID that an unlocked node list would bring up to date, which the list of a frozen append never is.
- FileAppend.FileAppendTransaction.ExecuteAll: the retry loop inside one chunk, of which only the nodes reached and whether the last took the request are an input; regenerated transaction IDs; an empty node list, for which it divides by zero.
- ContractFlow.ContractCreateFlow.UploadFile: creating the file and the contract, of which the former's success is an input.
- Execution.AskNode: a channel error may be among the replies for a node whose channel is open; the SDK would use the open channel.
- NetworkRuns.Step: what a request does to its own fields, to the delays and to the shared minimum is left to the contract of `Execute`.
- KeyTrees.ToProtoKey: key lists are values, so sharing and cycles between lists are not captured.
- NftApprovals: tokens and accounts are compared by their printed form, as the SDK does, and carry nothing else; entries read from a message are covered by the method contracts, not by the run theorems.
