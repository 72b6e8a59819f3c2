# A model of the RADIUS library and the queue macros

`ldap-tgen` carries a RADIUS library (FreeRADIUS 0.9) and the OpenLDAP headers. This project models the
parts of them where several pieces of code have to agree with one another, or where structures are
changed in place, and proves what they promise one another.

* **The packet codec** (`radius.c`). `rad_send` writes pairs into nested type-length-value octets and
  signs the packet; `rad_recv` judges a datagram; `rad_decode` checks the signatures, reads the nested
  structure with one flat loop and makes pairs of it. `Wire` is the grammar both sides are held against.
  `Attributes`, `Send`, `Receive`, `Decode`, `Values` and `Signature` model the code, `Layout` and
  `SignatureLaws` say octet by octet what is written, signed, accepted and read; `Agreement`, `Transmit`,
  `Verdicts` and `Survival` say exactly when the two ends agree on octets, signatures and pairs; `Exchange`
  runs a whole request and response.
* **Digests and hidden passwords** (`md5.c`, `hmac.c`, `radius.c`). `Md5`, `Hmac`, `Password`,
  `TunnelPassword`. The compression step of MD5 and, in the codec, the digests themselves are arbitrary
  functions.
* **Lists and queues** (`valuepair.c`, `ldap_queue.h`). `PairList` moves nodes between linked lists on
  the heap, `Merge` says what that means for the pairs, `Queues` has circular, doubly linked and singly
  linked queues.
* **The DES network** (`smbdes.c`). `Des` for any tables, `DesTables` for the tables of the program,
  `DesHash` for the arrays, `DesLaws` for what they make of a key and a block.
* **Printing and reading back** (`print.c`, `token.c`): `SafePrint`, `Tokens`. **The dictionary**
  (`dict.c`): `Dictionary`. **The decision about an Access-Request** (`auth.c`, `timestr.c`):
  `Authenticate`, `LoginTime`, and `AuthenticateLaws` for what single answers decide.

Loops that change arrays, objects or links are methods, proved against specification functions; the
laws are lemmas about those functions. Memory behind a datagram, random numbers, the clock, modules and
external programs are parameters. A property that has to hold whatever MD5 is, is stated for all digest
functions, and where it fails there is a digest function for which it does.
`dafny verify dfyconfig.toml` covers the whole project.

Where the code and its own words differ, the model follows the code:

* `librad_safeprint` asks for four times the input (`print.c:35-39`); the loop counts each octet twice
  and needs more (`SafePrint.PrintsAllExactly`, `SafePrint.FourTimesIsNotEnough`). With a capacity of four
  its terminating zero can land one octet behind the capacity (`SafePrint.TerminatorInsideExactly`,
  `SafePrint.TerminatorOutside`).
* `pairmove` says Fall-Through is never moved (`valuepair.c:292-296`); it is, unless its operator or a
  Fall-Through already present keeps it back (`Merge.FallThroughStaysExactly`).
* `pairreplace` says it replaces the pair if it is there (`valuepair.c:174`); it never looks at the last
  node (`PairList.ReplacesExactly`).
* `timestr_match` answers 0 for unlimited time (`timestr.c:202`); `rad_authenticate` refuses every answer
  below 60 (`auth.c:716`), so a user allowed at every minute of the week is never accepted
  (`Authenticate.LoginTimeDecides`, `LoginTime.HoursDecide`).
* A Message-Authenticator in an Accounting-Request makes the two ends digest different texts unless the
  vector is blank (`Agreement.AcctVerifiesExactly`), and the receiver never computes it over the sender's
  text (`Agreement.MacVerifiesExactly`). Of several Message-Authenticators only the last is filled in
  (`Verdicts.FirstMacIsBlank`, `Verdicts.ReceiverAgreesExactly`). A wrong one is logged and not refused
  (`radius.c:1216-1218`).
* A password hidden in a request that is signed is uncovered with another vector than it was hidden with
  (`Survival.SurvivesUnderEveryDigest`, `Survival.AccountingPasswordLost`).
* The tunnel password decoder reports the length of the text and leaves it behind salt and length octet,
  so that no tunnel password but the empty one is sure to come back (`Values.TunnelSurvivesExactly`,
  `Values.TunnelPairLost`).
* `dict_addattr` promises a new number that conflicts with none (`dict.c:135-140`); from 65536 on it can
  be that of a vendor's attribute (`Dictionary.NextIsUnusedExactly`, `Dictionary.Conflict`).
* `dict_vendorpec` is an empty macro (`libradius.h:187-188`), so vendor numbers pass through unchanged.
* The scanner can store one octet more than the length it is given, its terminating zero
  (`Tokens.TerminatorOutsideExactly`, `Tokens.LongWord`).

## Model

| member | source | states |
|---|---|---|
| `Md5.Stream` | hss_freeradius/src/lib/md5.c:116-199 | however a message is cut into chunks, initialise, update and finalise give the fold of the compression step over the padded message of section 3 of RFC 1321 |
| `Md5.Context.constructor` | hss_freeradius/src/lib/md5.c:116-126 | a new context is valid for the empty message |
| `Md5.InitialOctets` | hss_freeradius/src/lib/md5.c:121-124 | the octets of the first state are those of section 3.3 of RFC 1321, in their order |
| `Md5.Context.Update` | hss_freeradius/src/lib/md5.c:132-169 | the state stays the fold of the whole blocks so far, the buffer the remainder, and the two count words the bit count modulo 2^64, for the message extended by the chunk |
| `Md5.Context.Final` | hss_freeradius/src/lib/md5.c:174-199 | the digest is that of everything fed in, and the context is wiped |
| `Md5.AddBitsCounts` | hss_freeradius/src/lib/md5.c:145-150 | the carry between the two 32-bit words keeps them equal to the bit count modulo 2^64, over every overflow |
| `Md5.PaddingCompletes` | hss_freeradius/src/lib/md5.c:179-191 | padding octets chosen from the buffer index, and the count words, complete every message to the padded message of the standard |
| `Md5.PaddedOctets` | hss_freeradius/src/lib/md5.c:174-191 | octet by octet: the message, 0x80, zeros, and in the last eight octets eight times the length, low octet first; and no shorter message is a multiple of 64 octets |
| `Md5.LoopStopsExactlyWhenChunkable` | hss_freeradius/src/lib/md5.c:157 | for which chunk lengths the 32-bit loop guard stops the block loop where it must, and for which it wraps around |
| `Md5.EncodeInto` | hss_freeradius/src/lib/md5.c:296-309 | every four octets spell one word, low octet first, and the rest of the output is left alone |
| `Md5.Calc` | hss_freeradius/src/lib/md5.c:104-112 | the one-call digest is the digest of the input |
| `Hmac.HmacMd5` | hss_freeradius/src/lib/hmac.c:41-107 | H((K xor opad), H((K xor ipad), text)) of section 2 of RFC 2104 for keys and texts of every length, although one array is both input and output of the outer pass |
| `Hmac.EmptyKey` | hss_freeradius/src/lib/hmac.c:58-107 | with an empty key the inner text starts with 64 octets 0x36 and the outer one with 64 octets 0x5c |
| `Hmac.PadOctets` | hss_freeradius/src/lib/hmac.c:78-87 | the pads, octet by octet, under a key of any length up to 64 |
| `Hmac.LongKey` | hss_freeradius/src/lib/hmac.c:55-65 | a key of more than 64 octets counts as its digest |
| `Password.PwEncode` | hss_freeradius/src/lib/radius.c:1602-1652 | the buffer gets the block chain of section 5.2 of RFC 2865 over the zero-padded password, and the reported length is the padded one |
| `Password.PwDecode` | hss_freeradius/src/lib/radius.c:1658-1705 | undoing the blocks in place from the last to the second, with the first kept aside, reads the whole chain, also one whose last block is short |
| `Password.UnchainOfChain` | hss_freeradius/src/lib/radius.c:1602-1705 | reading a chain restores its plain text for every digest function, secret and seed |
| `Password.ChainSnoc` | hss_freeradius/src/lib/radius.c:1636-1650 | the chain computed block by block in place is the recursive one |
| `Password.HiddenRestores` | hss_freeradius/src/lib/radius.c:1602-1705 | hiding and reading a password gives it back, cut to 128 octets and padded with zeros |
| `Password.HiddenOctets` | hss_freeradius/src/lib/radius.c:1602-1652 | section 5.2 of RFC 2865 octet by octet: each block of the password, cut and filled up, under the digest of the secret and the request authenticator, or of the secret and the block before |
| `Password.UnchainOctets` | hss_freeradius/src/lib/radius.c:1658-1705 | octet by octet, the receiver's text under the digest of the secret and the vector or the cipher block before, in a short last block too |
| `Password.PasswordRoundTrip` | hss_freeradius/src/lib/radius.c:1415-1429 | the User-Password a receiver ends up with is the one sent exactly when that has at most 128 octets and no zero octet |
| `TunnelPassword.TunnelEncoder.Encode` | hss_freeradius/src/lib/radius.c:1719-1797 | the buffer holds salt and chain over length octet and password, cut to 127 octets, for any random source, and the call counter goes up by one |
| `TunnelPassword.Decode` | hss_freeradius/src/lib/radius.c:1807-1859 | the three outcomes of the decoder: too short, broken, or the text left at offset 3 |
| `TunnelPassword.TunnelRoundTrip` | hss_freeradius/src/lib/radius.c:1719-1859 | a hidden tunnel password is never found broken and comes back with length min(n, 127) |
| `TunnelPassword.HiddenOctets` | hss_freeradius/src/lib/radius.c:1719-1797 | the layout of section 3.5 of RFC 2868 octet by octet: salt, length, password and zeros, the first block under the digest of secret, request authenticator and salt, the others of secret and the block before |
| `TunnelPassword.VectorsDiffer` | hss_freeradius/src/lib/radius.c:1782-1794 | two request authenticators that the digest tells apart in the first block give different hidden octets |
| `TunnelPassword.RevealOctets` | hss_freeradius/src/lib/radius.c:1807-1859 | which received octets are too short, which broken, and which length the decoder reports, by the third octet under its digest |
| `TunnelPassword.EncodeThenDecode` | hss_freeradius/src/lib/radius.c:1719-1859 | encoding and decoding in one buffer reports min(n, 127) and leaves that much of the password at offset 3 |
| `TunnelPassword.SaltsDiffer` | hss_freeradius/src/lib/radius.c:1747-1762 | two encodings fewer than 16 calls apart have different first salt octets whatever the random source returns, also across a wrap-around of the counter |
| `Wire.ItemsOfFlat` | hss_freeradius/src/lib/radius.c:969-1082 | splitting a run of type-length-value triples gives back the triples it was built from |
| `Wire.FlatOfItems` | hss_freeradius/src/lib/radius.c:969-1082 | octets that are tiled by triples are the concatenation of those triples |
| `Wire.WellFormedMeans` | hss_freeradius/src/lib/radius.c:969-1082 | passing the attribute walk is the same as being tiled by attributes each of which is sane |
| `Receive.Receive` | hss_freeradius/src/lib/radius.c:777-1147 | a datagram is accepted exactly when its header is sane, attributes tile its declared length, each is sane, any maximum holds and an EAP-Message comes with a Message-Authenticator; an accepted packet keeps exactly the declared length |
| `Receive.PaddingIsIgnored` | hss_freeradius/src/lib/radius.c:938-953 | octets outside the Length field never change the verdict |
| `Layout.AttributeAccepted` | hss_freeradius/src/lib/radius.c:969-1113 | which packets of one attribute are accepted, by its type, length octet and value |
| `Receive.EapPassesMeans` | hss_freeradius/src/lib/radius.c:978-1113 | or-ing 79 and 80 and comparing the result accepts exactly the packets in which EAP-Message implies Message-Authenticator |
| `Receive.WalkAttributes` | hss_freeradius/src/lib/radius.c:969-1082 | the walk succeeds exactly on well-formed attributes, whatever lies behind the packet, and counts them |
| `Receive.CheckAttribute` | hss_freeradius/src/lib/radius.c:978-1059 | the checks on one attribute accept it exactly when it is sane |
| `Receive.VendorFilled` | hss_freeradius/src/lib/radius.c:1039-1057 | the inner loop accepts a Vendor-Specific value exactly when sub-attributes tile it |
| `Decode.Extract` | hss_freeradius/src/lib/radius.c:1279-1573 | the flat loop over two counters returns exactly the attributes of the nested grammar of sections 5 and 5.26 of RFC 2865 in order, reads only the packet and consumes all of it; it faults exactly for a USR attribute with length octet 9 |
| `Layout.VendorRead` | hss_freeradius/src/lib/radius.c:1290-1336 | the number of a vendor's sub-attribute is the low half of the vendor's four octets and its own type |
| `Layout.UsrRead` | hss_freeradius/src/lib/radius.c:1308-1320 | that of a USR attribute is the low half of four octets |
| `Decode.ReadItem` | hss_freeradius/src/lib/radius.c:1279-1336 | one turn of the loop reads the next sub-attribute or attribute and leaves the cursor in front of what remains, with the vendor counter equal to the length of the remaining sub-attributes |
| `Decode.ReadOpening` | hss_freeradius/src/lib/radius.c:1290-1336 | an opened Vendor-Specific attribute is entered at its first sub-attribute |
| `Attributes.FramedExactlyWhenFits` | hss_freeradius/src/lib/radius.c:455-521 | the length octets of a pair cover what is written for it exactly when its payload fits its slot |
| `Attributes.EmitIsTlv` | hss_freeradius/src/lib/radius.c:262-521 | a pair that fits is written as one well-formed attribute, so each Vendor-Specific length is six more than the inner one |
| `Send.BuildBody` | hss_freeradius/src/lib/radius.c:222-521 | the attribute loop writes the pairs that go on the wire, counts their length octets, remembers the last Message-Authenticator, and gives up exactly when the count passes 4096 before a pair |
| `Send.PutPair` | hss_freeradius/src/lib/radius.c:262-521 | one pair is written as specified, by raising length octets that were written first |
| `Send.FramingExactlyWhenAllFit` | hss_freeradius/src/lib/radius.c:455-521 | written and counted octets of a whole list agree exactly when every pair fits its slot |
| `Send.BufferSuffices` | hss_freeradius/src/lib/radius.c:192-251 | the buffer of 4096 + 256 octets suffices for every list of pairs that fit, however long |
| `Transmit.WireRoundTrip` | hss_freeradius/src/lib/radius.c:192-1573 | every packet sent for a list of pairs that fit and can be numbered is acceptable, and extraction gives back the pairs that travel, in order, numbers and payloads, with the last Message-Authenticator replaced by its keyed digest |
| `Layout.PacketOctets` | hss_freeradius/src/lib/radius.c:523-621 | code, identifier and length stand in the first four octets of what is sent, whatever is signed |
| `Layout.PairOctets` | hss_freeradius/src/lib/radius.c:302-362 | the octets of a pair in front of its payload, for plain, vendor and USR attributes |
| `Layout.NumberOctets` | hss_freeradius/src/lib/radius.c:477-516 | numbers and addresses in network byte order, the first octet given to a tag |
| `Layout.LongPayload` | hss_freeradius/src/lib/radius.c:455-475 | the room for a payload, 253, 247 or 245 octets, and that a longer one is written whole behind a length octet of 255 |
| `Layout.SendableExactly` | hss_freeradius/src/lib/radius.c:241-252 | sending fails exactly if the packet is beyond 4096 octets when it comes to a pair that is sent |
| `Layout.TelnetRequest` | hss_freeradius/src/lib/radius.c:155-645 | the Access-Request of section 7.1 of RFC 2865 comes out as it is printed there, but for authenticator and hidden password |
| `Transmit.ReadsBackExactly` | hss_freeradius/src/lib/radius.c:1290-1336 | a pair that fits becomes a sane attribute that is read back as itself exactly when its number is not zero, a plain Vendor-Specific value is sane and not opened, and a vendor's payload is not empty with a number that fits an octet |
| `Transmit.MacOffsetIsLast` | hss_freeradius/src/lib/radius.c:254-266 | the offset kept for signing is that of the last Message-Authenticator on the wire |
| `Transmit.AllReadBack` | hss_freeradius/src/lib/radius.c:1279-1573 | expanding the attributes of a list of pairs gives their numbers and payloads |
| `Transmit.SentBody` | hss_freeradius/src/lib/radius.c:523-621 | of the attributes signing changes only the value of the last Message-Authenticator, however many there are |
| `Transmit.SentStart` | hss_freeradius/src/lib/radius.c:523-621 | signing leaves code, identifier and length as they were |
| `Values.PairRoundTrip` | hss_freeradius/src/lib/radius.c:1337-1573 | decoding the octets of a pair, of an attribute the dictionary knows or one it does not, gives the pair back exactly when it is representable: tag rules, IPv6 shapes and password limits, by type; with the sender's vector, or with any vector if nothing is hidden with it |
| `Layout.NumberRead` | hss_freeradius/src/lib/radius.c:1460-1503 | what four octets and any other number of octets become, with and without a tag |
| `Values.TunnelSurvivesExactly` | hss_freeradius/src/lib/radius.c:1434-1439 | whatever the call counter is, a tunnel password comes back as a pair for every random source exactly when it is empty, because the decoder leaves the text behind salt and length octet |
| `Values.TunnelPairLost` | hss_freeradius/src/lib/radius.c:1434-1439 | for every tunnel password that is not empty a random word under which it is lost |
| `Values.AscendPairExactly` | hss_freeradius/src/lib/radius.c:1445-1456 | an Ascend secret comes back exactly when it has at most 16 octets, none of them zero, and a zero behind it if it is shorter |
| `Values.ListRoundTrip` | hss_freeradius/src/lib/radius.c:1337-1573 | the same for whole lists, with every pair in its place |
| `Values.BuildPairs` | hss_freeradius/src/lib/radius.c:1337-1573 | the loop links the decoded pairs in order, leaves out what has no type, and stops at a fault |
| `Signature.SignPacket` | hss_freeradius/src/lib/radius.c:549-621 | the packet ends as the signed text, and its vector is the one that was sent |
| `Signature.CheckMac` | hss_freeradius/src/lib/radius.c:1176-1226 | one Message-Authenticator check gives the right verdict and puts back everything it overwrites |
| `Signature.CheckMacs` | hss_freeradius/src/lib/radius.c:1176-1232 | one verdict for each Message-Authenticator of an accepted packet, and the packet is left as it was |
| `Signature.CheckAuthenticator` | hss_freeradius/src/lib/radius.c:657-770 | the authenticator check passes exactly as specified; only the authenticator of an Accounting-Request with a non-blank vector stays overwritten |
| `Signature.Verify` | hss_freeradius/src/lib/radius.c:1154-1274 | all signature checking of a packet: verdicts, result, and the exact state of the buffer afterwards |
| `Signature.Restored` | hss_freeradius/src/lib/radius.c:1204-1226 | blanking the authenticator, putting the request's vector in, and putting both back is the identity |
| `SignatureLaws.MacTextOctets` | hss_freeradius/src/lib/radius.c:549-577 | the text under a Message-Authenticator octet by octet: its own value blank, and in Accept, Reject and Challenge the request's authenticator in octets 4 to 19 |
| `SignatureLaws.SignFilled` | hss_freeradius/src/lib/radius.c:549-621 | the sent packet with a Message-Authenticator: the keyed digest of that text, and except in codes 1 and 12 the digest over the packet with the sender's vector, each in its place and nothing else changed |
| `SignatureLaws.ReplyAuthenticator` | hss_freeradius/src/lib/radius.c:582-770 | a reply of any code but 1 and 12 that was sent with its request's vector, a Challenge too, has an authenticator that calc_replydigest finds right |
| `SignatureLaws.AuthenticatorExactly` | hss_freeradius/src/lib/radius.c:657-770 | which packets pass, by code and octets: code 4 if blank or the digest over the packet with a blank vector agrees, codes 2, 3 and 5 if there is a request and the digest with its vector agrees, all others always |
| `SignatureLaws.VerdictsAre` | hss_freeradius/src/lib/radius.c:657-770 | the numbers the two digest checks answer: right, blank, wrong, no request |
| `SignatureLaws.AcctPassesExactly` | hss_freeradius/src/lib/radius.c:657-695 | an Accounting-Request passes under every digest exactly if its authenticator is blank |
| `SignatureLaws.AcctOctetOff` | hss_freeradius/src/lib/radius.c:657-695 | one that is not blank is refused if the digest differs from it in a single octet, at any place |
| `SignatureLaws.ReplyOctetOff` | hss_freeradius/src/lib/radius.c:702-770 | so are Accept, Reject and Accounting-Response |
| `SignatureLaws.MacOctetOff` | hss_freeradius/src/lib/radius.c:1176-1226 | a Message-Authenticator with a single wrong octet is found wrong |
| `Agreement.MacVerifiesExactly` | hss_freeradius/src/lib/radius.c:549-621 | the receiver's Message-Authenticator check succeeds under every digest and keyed digest exactly for Access-Request and Status-Server, and for Accept, Reject and Challenge checked with their request |
| `Agreement.MacCounterexample` | hss_freeradius/src/lib/radius.c:549-621 | for every other code a keyed digest under which it fails, for any digest that changes the vector |
| `Agreement.MacVerifies` | hss_freeradius/src/lib/radius.c:549-621 | in the covered cases the check succeeds for the given digests |
| `Agreement.ReplyVerifies` | hss_freeradius/src/lib/radius.c:702-770 | the Response Authenticator of every signed packet that was sent with its request's vector is found right |
| `Agreement.ReplyVerifiesExactly` | hss_freeradius/src/lib/radius.c:702-770 | it is found right under every digest exactly when it is checked against the vector the reply was sent with |
| `Agreement.ReplyCounterexample` | hss_freeradius/src/lib/radius.c:702-770 | otherwise a digest that looks at the vector only finds it wrong |
| `Agreement.AcctSameText` | hss_freeradius/src/lib/radius.c:657-695 | an Accounting-Request is digested over the same text at both ends exactly when it has no Message-Authenticator or was sent with a blank vector |
| `Agreement.AcctVerifiesExactly` | hss_freeradius/src/lib/radius.c:657-695 | it verifies under every digest function exactly in that case |
| `Agreement.AcctCounterexample` | hss_freeradius/src/lib/radius.c:657-695 | otherwise there is a digest function under which it does not verify |
| `Verdicts.MacsOfSent` | hss_freeradius/src/lib/radius.c:1176-1232 | the receiver meets the Message-Authenticators where the sender put them, and no other |
| `Verdicts.FirstMacIsBlank` | hss_freeradius/src/lib/radius.c:254-266 | of several Message-Authenticators the first one is sent as zeros |
| `Verdicts.ReceiverAgreesExactly` | hss_freeradius/src/lib/radius.c:549-1274 | every check the receiver makes on what was sent succeeds, whatever the digests are, exactly when there is at most one Message-Authenticator, of a code where both ends compute it alike, and a reply is checked against the vector it was sent with |
| `Verdicts.SomeCheckFails` | hss_freeradius/src/lib/radius.c:549-1274 | for every other packet digests under which some check fails |
| `Survival.VectorOfSent` | hss_freeradius/src/lib/radius.c:582-589 | the vector of a sent packet is the sender's for a request that is not signed, and otherwise a digest of a text longer than secret and vector |
| `Survival.KeepsVectorExactly` | hss_freeradius/src/lib/radius.c:582-589 | a sent packet carries the sender's own vector under every digest exactly in codes 1 and 12 |
| `Survival.PairsSurviveExactly` | hss_freeradius/src/lib/radius.c:155-1573 | from a list of pairs through the signed packet to the list of a receiver who uncovers passwords with the request's vector or the packet's: where that is the sender's vector, or nothing is hidden, the two lists are the same exactly when every pair is representable |
| `Survival.SurvivesUnderEveryDigest` | hss_freeradius/src/lib/radius.c:1415-1429 | a list survives under every digest and keyed digest exactly when both ends use the same vector or no pair is hidden in the User-Password style, and no digest can spoil a pair: a hidden tagged text has a tag, the last Message-Authenticator has a type that any 16 octets fit, and every other pair is representable by its own value |
| `Survival.SpoiltIsLost` | hss_freeradius/src/lib/radius.c:1362-1392 | the digests under which any other list is lost: they make a valid tag, or no valid prefix, of what is hidden or signed |
| `Survival.HiddenPairsAreLost` | hss_freeradius/src/lib/radius.c:1415-1429 | where the vectors differ, a digest function under which a list with a hidden pair is lost |
| `Survival.AccountingPasswordLost` | hss_freeradius/src/lib/radius.c:588-589 | such a list: a User-Password of one letter in an Accounting-Request |
| `Exchange.RadSend` | hss_freeradius/src/lib/radius.c:155-645 | sending fails exactly when the list outgrows the maximum, and otherwise leaves the signed packet, cut to the counted length, also for pairs too long for their slots and any Message-Authenticators whose keyed digest has room in the packet |
| `Exchange.RadDecode` | hss_freeradius/src/lib/radius.c:1154-1573 | checking, extraction and decoding one after the other, in terms of the packet as received: verdicts, result, and the list of pairs |
| `Exchange.Transmission` | hss_freeradius/src/lib/radius.c:155-1573 | sending, receiving, checking and decoding: every check of a verifiable packet passes, and the receiver's list is the one that was meant exactly when it survives |
| `Exchange.RequestResponse` | hss_freeradius/src/lib/radius.c:155-1573 | a whole request and response with a shared secret: both ends accept each other's packets, the client gets the server's pairs exactly if they are representable, and the server the client's unless a signed request hides a password |
| `PairList.PairFind` | hss_freeradius/src/lib/valuepair.c:130-135 | finds the first node of the attribute |
| `PairList.PairDelete` | hss_freeradius/src/lib/valuepair.c:141-155 | the list keeps exactly the other nodes in order, and the deleted ones are given back in order |
| `PairList.PairMove` | hss_freeradius/src/lib/valuepair.c:251-432 | on heap lists with a cached tail, both lists end as the fold over the second list says, acyclic, apart, and with the named nodes deleted |
| `PairList.MoveNode` | hss_freeradius/src/lib/valuepair.c:277-431 | one turn of the loop keeps both chains, their disjointness and both tail pointers, also after deletions |
| `PairList.PairMove2` | hss_freeradius/src/lib/valuepair.c:437-494 | the selected nodes are appended in order and the others stay in order |
| `PairList.SelectedExactly` | hss_freeradius/src/lib/valuepair.c:437-494 | a node moves exactly if it has the attribute or, asked for Vendor-Specific, if the upper half of its number names a vendor; every node ends in one of the lists |
| `PairList.PairReplace` | hss_freeradius/src/lib/valuepair.c:176-206 | the list ends with the new node in the place of the first match before the last node, or at the end |
| `PairList.ReplacesExactly` | hss_freeradius/src/lib/valuepair.c:191-206 | the first match is replaced exactly when it is not the last node of the list |
| `PairList.ReplaceConserves` | hss_freeradius/src/lib/valuepair.c:176-206 | no node is lost or duplicated by a replacement |
| `Merge.Conserved` | hss_freeradius/src/lib/valuepair.c:251-432 | every node of both lists ends in exactly one of the first list, the second list and the deleted nodes |
| `Merge.OrderKept` | hss_freeradius/src/lib/valuepair.c:251-432 | neither list is reordered: the result is a subsequence of the two lists one after the other, what stays behind of the second |
| `Merge.Separable` | hss_freeradius/src/lib/valuepair.c:294-431 | what becomes of an attribute depends only on the pairs with that attribute |
| `Merge.PasswordsUntouched` | hss_freeradius/src/lib/valuepair.c:264-291 | if the first list has a password of either kind, both kinds stay as they are in both lists |
| `Merge.EqualMovesIfAbsentExactly` | hss_freeradius/src/lib/valuepair.c:246-262 | pairs with = are moved only if absent, first come first, exactly when the first list is not empty or at most one comes |
| `Merge.LastDecides` | hss_freeradius/src/lib/valuepair.c:300-410 | the last pair of an attribute decides by its operator what is left of the attribute |
| `Merge.StandingIs` | hss_freeradius/src/lib/valuepair.c:300-410 | the node of an attribute that is first in the first list when a node is reached is what following that one node through the earlier nodes of the attribute gives |
| `Merge.StandsAfterSubs` | hss_freeradius/src/lib/valuepair.c:304-327 | behind the last node that is not -=, what stands is taken away exactly if one of the nodes with -= gives no text or its text |
| `Merge.StaysBehindExactly` | hss_freeradius/src/lib/valuepair.c:277-426 | which nodes of the second list stay there, by the two lists alone: passwords held back, those with -=, and those with = whose attribute is present when they are reached; none if the first list was empty |
| `Merge.FallThroughStaysExactly` | hss_freeradius/src/lib/valuepair.c:292-299 | Fall-Through stays behind only like any other attribute, against the comment |
| `Queues.Queue.constructor` | openldap/include/ldap_queue.h:493-496 | an empty queue is in order |
| `Queues.InsertionKeeps` | openldap/include/ldap_queue.h:503-541 | what an insertion has to write for links to stay mutually inverse and first and last exact |
| `Queues.RemovalKeeps` | openldap/include/ldap_queue.h:549-560 | the same for a removal |
| `Queues.CircleInsertAfter` | openldap/include/ldap_queue.h:503-511 | sequence insertion behind the element, links in order |
| `Queues.CircleInsertBefore` | openldap/include/ldap_queue.h:513-521 | sequence insertion before the element, links in order |
| `Queues.CircleInsertHead` | openldap/include/ldap_queue.h:523-531 | sequence insertion at the front, links in order |
| `Queues.CircleInsertTail` | openldap/include/ldap_queue.h:533-541 | sequence insertion at the end, links in order |
| `Queues.CircleRemove` | openldap/include/ldap_queue.h:549-560 | sequence deletion, links in order |
| `Queues.TailInsertHead` | openldap/include/ldap_queue.h:418-426 | sequence insertion at the front, links in order |
| `Queues.TailInsertTail` | openldap/include/ldap_queue.h:428-433 | sequence insertion at the end through the last pointer, links in order |
| `Queues.TailInsertAfter` | openldap/include/ldap_queue.h:435-443 | sequence insertion behind the element, links in order |
| `Queues.TailInsertBefore` | openldap/include/ldap_queue.h:445-450 | sequence insertion before the element through its back pointer, links in order |
| `Queues.TailRemove` | openldap/include/ldap_queue.h:452-459 | sequence deletion, links in order |
| `Queues.Forward` | openldap/include/ldap_queue.h:483-486 | the forward walk visits the sequence |
| `Queues.Backward` | openldap/include/ldap_queue.h:488-491 | the backward walk visits the sequence in reverse |
| `Queues.Run` | openldap/include/ldap_queue.h:408-560 | after every legal run of insertions and removals on a queue of either kind, it holds what the run makes of a sequence, with all links in order |
| `Queues.Line.constructor` | openldap/include/ldap_queue.h:222-225 | an empty singly linked queue is in order |
| `Queues.Line.InsertHead` | openldap/include/ldap_queue.h:242-246 | sequence insertion at the front; the last pointer addresses the final next field |
| `Queues.Line.InsertTail` | openldap/include/ldap_queue.h:248-252 | sequence insertion at the end; the last pointer addresses the final next field |
| `Queues.Line.InsertAfter` | openldap/include/ldap_queue.h:254-258 | sequence insertion behind the element; the last pointer addresses the final next field |
| `Queues.Line.RemoveHead` | openldap/include/ldap_queue.h:262-266 | the first element leaves; the last pointer is reset when the queue empties |
| `Queues.Line.RemoveHeadUntil` | openldap/include/ldap_queue.h:268-271 | everything up to and with the element leaves |
| `Queues.Line.Remove` | openldap/include/ldap_queue.h:273-285 | any element leaves after a search for the one before it |
| `Queues.LineForward` | openldap/include/ldap_queue.h:239-240 | the walk visits the sequence |
| `Queues.LineRun` | openldap/include/ldap_queue.h:222-285 | after every legal run of insertions and removals a singly linked queue holds what the run makes of a sequence, with all links in order and the last pointer at the final link |
| `Des.Deciphered` | hss_freeradius/src/lib/smbdes.c:184-261 | for tables of the right shape, the rounds with the keys reversed undo the rounds, whatever the boxes are |
| `Des.CipherIsPermutation` | hss_freeradius/src/lib/smbdes.c:184-261 | for every key schedule the network is a permutation of the 64-bit blocks |
| `Des.RoundUndone` | hss_freeradius/src/lib/smbdes.c:218-256 | a round with the halves swapped undoes itself |
| `Des.BoxedSpells` | hss_freeradius/src/lib/smbdes.c:230-246 | every four bits of the substitution spell the entry of their box whose row the outer two of six bits and whose column the inner four spell |
| `Des.TurnedByTotal` | hss_freeradius/src/lib/smbdes.c:159-167 | the key halves before a round are the first halves turned by the total shift |
| `Des.TurnedHome` | hss_freeradius/src/lib/smbdes.c:203-209 | sixteen turns bring both key halves back to where they began |
| `DesTables.TablesUndone` | hss_freeradius/src/lib/smbdes.c:71-107 | the initial and the final permutation undo each other |
| `DesTables.TotalShift` | hss_freeradius/src/lib/smbdes.c:109 | the shifts of the sixteen rounds add up to 28 |
| `DesTables.TablesAreGood` | hss_freeradius/src/lib/smbdes.c:53-150 | all tables select positions that exist, and all boxes have four rows of sixteen |
| `DesTables.HashIsPermutation` | hss_freeradius/src/lib/smbdes.c:184-261 | with these tables, for every key, equal results come from equal blocks and every block is a result |
| `DesLaws.ComplementationLaw` | hss_freeradius/src/lib/smbdes.c:184-261 | for tables of the right shape, flipping every bit of key and block flips every bit of the result: the round key is mixed in by exclusive or, and so is the result of the round |
| `DesLaws.BlankRound` | hss_freeradius/src/lib/smbdes.c:218-256 | where the boxes leave nothing but zeros a round only exchanges the halves |
| `DesLaws.ParityIgnored` | hss_freeradius/src/lib/smbdes.c:53-62 | keys that agree outside the eight parity bits have the same schedule |
| `DesLaws.FirstKeyBits` | hss_freeradius/src/lib/smbdes.c:199-216 | the first round key begins with bit 10 of the key and the last one with bit 18: each half is turned before it is selected from |
| `DesLaws.WithoutRounds` | hss_freeradius/src/lib/smbdes.c:71-107 | without rounds the network exchanges every two neighbouring bits: the initial permutation, the exchange of the halves and the final permutation in their order |
| `DesLaws.BoxesComplete` | hss_freeradius/src/lib/smbdes.c:113-150 | every row of every box holds each of the sixteen numbers once |
| `DesHash.Permute` | hss_freeradius/src/lib/smbdes.c:152-157 | the array gets the selected positions |
| `DesHash.LeftShift` | hss_freeradius/src/lib/smbdes.c:159-167 | the array is rotated in place |
| `DesHash.Turn` | hss_freeradius/src/lib/smbdes.c:203-209 | sixteen round keys, and the halves are back where they began |
| `DesHash.Substitute` | hss_freeradius/src/lib/smbdes.c:230-246 | splitting into rows of six, looking up in place and joining four by four is the substitution, and each four bits spell their box's entry; every index stays in its table |
| `DesHash.RoundInPlace` | hss_freeradius/src/lib/smbdes.c:218-256 | one round on the two arrays is one round of the network |
| `DesHash.DoHash` | hss_freeradius/src/lib/smbdes.c:184-261 | the whole computation on arrays is the network run with the schedule of the key |
| `SafePrint.Print` | hss_freeradius/src/lib/print.c:40-93 | the buffer, which may be as short as the capacity, holds the text the loop is specified to print, and behind it a zero unless the text fills it |
| `SafePrint.EncodedIs` | hss_freeradius/src/lib/print.c:59-84 | which octets are printed by a letter, as they are, and by three octal digits that spell them |
| `SafePrint.TerminatorInsideExactly` | hss_freeradius/src/lib/print.c:48-92 | the terminating zero stands inside the buffer exactly unless buffer and capacity have four octets and the first octet is printed in octal and not a final zero |
| `SafePrint.TerminatorOutside` | hss_freeradius/src/lib/print.c:73-92 | the text of the octet 1 fills four octets, so that the zero lands behind them |
| `SafePrint.PrintsAllExactly` | hss_freeradius/src/lib/print.c:48-88 | the whole text is printed exactly when twice the escaped length of all but its last octet, and three, is less than the capacity |
| `SafePrint.FourTimesIsNotEnough` | hss_freeradius/src/lib/print.c:35-39 | a capacity of four times the text is not always enough, against the comment |
| `Tokens.GetThing` | hss_freeradius/src/lib/token.c:72-202 | the scanner with its escape and quote flags finds what is specified and leaves the word in the buffer, which may be as short as the length given, and behind it a zero unless the word fills it |
| `Tokens.ScanWord` | hss_freeradius/src/lib/token.c:116-171 | the word loop, which counts a backslash and the octet behind it as two turns |
| `Tokens.TerminatorOutsideExactly` | hss_freeradius/src/lib/token.c:116-172 | with a buffer of exactly the length given, the zero lands outside exactly when a word begins here whose first so many octets hold no backslash and nothing that ends it |
| `Tokens.LongWord` | hss_freeradius/src/lib/token.c:116-172 | every plain word as long as the buffer does so |
| `Tokens.AllRead` | hss_freeradius/src/lib/token.c:116-171 | escaped text up to a quote is read back as the text, for every kind of escape |
| `Tokens.QuotedReadsBackExactly` | hss_freeradius/src/lib/print.c:112-135 | printing a value between quotes and reading it with the tokenizer gives a double-quoted string, and the same value exactly when that has no double quote and no zero |
| `Tokens.FirstIsLongest` | hss_freeradius/src/lib/token.c:33-63 | with a table in this order, of which the source says that it is important, the first match is the longest one |
| `Tokens.TableInOrder` | hss_freeradius/src/lib/token.c:32-55 | the table of special tokens is in this order |
| `Tokens.BareWordReads` | hss_freeradius/src/lib/token.c:116-171 | a word of octets that stand for themselves is read as a bare word up to the next space or special token |
| `Tokens.QuotedWordReads` | hss_freeradius/src/lib/token.c:116-200 | text between single, double or back quotes is read as it is, and the token says which quote it was |
| `Dictionary.Dict.ByValue` | hss_freeradius/src/lib/dict.c:652-670 | looking a number up through the cache or the list is a first-match scan of the list |
| `Dictionary.Dict.AddAttribute` | hss_freeradius/src/lib/dict.c:125-190 | the list gets the attribute in front; every slot of the cache is what is specified; the cache goes on agreeing with the list exactly when the attribute has no vendor, or no base number, or repeats what was there |
| `Dictionary.AddedExactly` | hss_freeradius/src/lib/dict.c:125-169 | when an addition is refused, and otherwise the attribute, the number and the highest number it leaves |
| `Dictionary.Dict.Free` | hss_freeradius/src/lib/dict.c:68-92 | list and cache are emptied, the highest number is kept |
| `Dictionary.Dict.ByName` | hss_freeradius/src/lib/dict.c:675-685 | the first attribute whose name agrees but for case |
| `Dictionary.BaseNumbers` | hss_freeradius/src/lib/dict.c:167-179 | an attribute of a vendor gets a number below 256 exactly when the vendor's low 16 bits are zero and its own number is below 256 |
| `Dictionary.Run` | hss_freeradius/src/lib/dict.c:68-190 | after every run of additions and resets with 16-bit vendors the list is what the run makes of it, the cache agrees with it for every number, and no number without a vendor is above the highest one given out |
| `Dictionary.NewNumberIsFree` | hss_freeradius/src/lib/dict.c:136-152 | after every run, resets included, a new number is above every number on the list that has no vendor |
| `Dictionary.AllocatedRise` | hss_freeradius/src/lib/dict.c:127-152 | the numbers a run hands out rise strictly, also across resets |
| `Dictionary.NextIsUnusedExactly` | hss_freeradius/src/lib/dict.c:136-169 | the next number conflicts with no attribute of any vendor after any run exactly as long as it is below 65536 |
| `Dictionary.Conflict` | hss_freeradius/src/lib/dict.c:136-169 | from 65536 on, a run of two additions after which it does |
| `Dictionary.AgreesExactly` | hss_freeradius/src/lib/dict.c:171-188 | for vendors of any size, when an addition leaves cache and list in agreement for every base number |
| `Dictionary.CacheMisses` | hss_freeradius/src/lib/dict.c:171-179 | vendor 65536 with number 7 is in the list and not in the cache |
| `Authenticate.AcceptedExactly` | hss_freeradius/src/main/auth.c:436-952 | with modules that do not accept by themselves, a request ends in Access-Accept exactly when it passes the home server, authorisation, expiry, password, simultaneous use, login time, the external program and post-authentication; authorisation runs at most twice |
| `Authenticate.RejectPrevails` | hss_freeradius/src/main/auth.c:194-231 | one Auth-Type = Reject after authorisation refuses the user, beside Accept and also for a proxied Accept |
| `Authenticate.SessionsDecide` | hss_freeradius/src/main/auth.c:645-700 | a request that gets as far as the count of sessions, with a limit and a user name, is accepted exactly when the count is below the limit, or adds a line to a multilink call with more ports granted than the limit, and what the counting module left passes the later gates |
| `Authenticate.LoginTimeDecides` | hss_freeradius/src/main/auth.c:702-731 | a request that gets as far as its Login-Time is accepted exactly when at least 60 seconds are left and the last gates let it pass, so the answer 0, no limit, is refused |
| `Authenticate.PostAuthDecides` | hss_freeradius/src/main/auth.c:388-428 | the post-authentication step has the last word: a failing answer makes a reject of the request, any other leaves it as the module did, none makes an accept of what was none, and without it nobody is accepted |
| `Authenticate.AuthTypeIsLast` | hss_freeradius/src/main/auth.c:199-212 | of several Auth-Types the last one counts |
| `Authenticate.FailSafe` | hss_freeradius/src/main/auth.c:245-256 | a user for whom authorisation leaves neither a type nor a password configured is never accepted |
| `Authenticate.StoredDecides` | hss_freeradius/src/main/auth.c:233-249 | without Auth-Type the stored password decides, a crypted one before a plain one, and a user is accepted only if the given password agrees with it |
| `AuthenticateLaws.ModuleDecides` | hss_freeradius/src/main/auth.c:341-377 | the module of the last Auth-Type decides: ok lets the user go on with what the module left, handled leaves the request to it, and every other answer, the unexpected ones too, is a reject |
| `AuthenticateLaws.SchemesDecide` | hss_freeradius/src/main/auth.c:258-340 | local and crypt types: which given and stored passwords agree, a CHAP-Password included, and the request itself stays as it is |
| `AuthenticateLaws.ExpiredIsRejected` | hss_freeradius/src/main/auth.c:66-100 | an expired user ends in Access-Reject |
| `AuthenticateLaws.ExpiredExactly` | hss_freeradius/src/main/auth.c:66-626 | expiry is an Expiration before now, anywhere in the list; then nothing is left of the reply but its message and no module sees the password |
| `AuthenticateLaws.WrongIsRejected` | hss_freeradius/src/main/auth.c:610-626 | a user who fails the password check ends in Access-Reject |
| `AuthenticateLaws.SessionsAreRejected` | hss_freeradius/src/main/auth.c:645-700 | a user with too many sessions ends in Access-Reject |
| `AuthenticateLaws.LateIsRejected` | hss_freeradius/src/main/auth.c:702-731 | a user with less than 60 seconds left ends in Access-Reject |
| `AuthenticateLaws.HomeAcceptCounts` | hss_freeradius/src/main/auth.c:463-503 | the home server's accept is the type that counts, and does not hide a reject |
| `AuthenticateLaws.PasswordChosen` | hss_freeradius/src/main/auth.c:514-544 | the password looked at is the first User-Password, before any CHAP-Password, unless one is set |
| `AuthenticateLaws.AuthorizationDecides` | hss_freeradius/src/main/auth.c:546-577 | which answers end authorisation and with which reply code, and that the first Autz-Type asks for one more and no third |
| `AuthenticateLaws.ProgramDecides` | hss_freeradius/src/main/auth.c:818-872 | a failing program rejects the user behind its own changes to the reply, without the post-authentication step |
| `AuthenticateLaws.PostAuthIs` | hss_freeradius/src/main/auth.c:388-428 | the step is called with the first Post-Auth-Type on the concluded request, and which of its answers reject |
| `AuthenticateLaws.RejectedType` | hss_freeradius/src/main/auth.c:755-773 | a refused user's step is called with the type the dictionary calls reject whatever was configured |
| `Authenticate.TimeIsLimited` | hss_freeradius/src/main/auth.c:733-755 | the reply gets a Session-Timeout of no more than the time left, and nothing else in it changes |
| `AuthenticateLaws.LimitedAt` | hss_freeradius/src/main/auth.c:735-752 | the first Session-Timeout becomes the smaller of itself and the time left, and one is appended if there is none |
| `Authenticate.Request.CheckExpiration` | hss_freeradius/src/main/auth.c:66-100 | an expired item is found wherever it stands, and then only the expiry message is left of the reply |
| `Authenticate.Request.CheckPassword` | hss_freeradius/src/main/auth.c:182-381 | the result of the password check for every Auth-Type, stored and given password |
| `Authenticate.Request.Authorize` | hss_freeradius/src/main/auth.c:546-577 | the jump back is taken at most once |
| `Authenticate.Request.Decide` | hss_freeradius/src/main/auth.c:436-952 | the program reaches the specified decision with the specified number of authorisations |
| `LoginTime.TimestrMatch` | hss_freeradius/src/main/timestr.c:236-257 | the walk around the week gives the seconds until the first minute that is not allowed, -1 for none, 0 for no limit |
| `LoginTime.LeftMeans` | hss_freeradius/src/main/timestr.c:200-257 | the answer is 0 exactly if every minute is allowed, -1 exactly if this one is not, and otherwise at least 60 |
| `LoginTime.LeftIs` | hss_freeradius/src/main/timestr.c:236-257 | 60 seconds for every minute up to the first that is not allowed, across the end of the week |
| `LoginTime.HoursDecide` | hss_freeradius/src/main/auth.c:702-731 | a user with a Login-Time is accepted exactly if this minute is allowed, some minute of the week is not, and the last gates let the request pass |

## Left out

- Exchange.RadSend: lists whose octets would leave the packet buffer are excluded, which lists of fitting pairs never do (`Send.BufferSuffices`), and so are lists whose last Message-Authenticator is of a type too short for the keyed digest that is copied over it; that the C code hides passwords in the caller's own pairs, so that a second call would hide them again, is not captured.
- Exchange.RequestResponse: lists of pairs that fit, can be numbered and have the dictionary's form, hidden in the User-Password style or not at all.
- Survival.SurvivesUnderEveryDigest: pairs hidden in the Tunnel-Password or Ascend style are excluded; what becomes of them is `Values.TunnelSurvivesExactly` and `Values.AscendPairExactly`.
- Values.PairRoundTrip: the same two styles are undone by an arbitrary function here. The printable text kept beside integers and addresses is not modelled.
- Values.AscendPairExactly: with the sender's vector; the code reads the request's vector without asking whether there is a request.
- SafePrint.Print: a terminating zero that would stand outside the buffer is reported and not written; the same holds for `Tokens.GetThing`.
- Tokens.GetThing: text without zero octets, read with the C locale's white space.
- Md5.Stream: chunk lengths for which the 32-bit loop guard wraps around are excluded; they are exactly those of `Md5.LoopStopsExactlyWhenChunkable`.
- Authenticate.Request.Decide: changes to the reply list that do not bear on the decision (addresses with ports, callback, expansion of messages) are one arbitrary function, and the texts of messages are shortened.
- LoginTime.TimestrMatch: the week is a table of minutes; parsing the text of a Login-Time into it is not modelled.
- Dictionary.Dict.AddAttribute: one list of attributes, each with the vendor it was added for; values, vendor names and the parsing of dictionary files are not modelled.
- DesHash.DoHash: works on bits as the code does; packing octets into bits and spreading the key (`str_to_key`, `smbhash`) are not modelled, and the round keys are kept in a sequence instead of a two-dimensional array.
- The round constants of the MD5 compression step, MD4, SHA-1 and the random number generator.
- CHAP encoding and the binary filters of `filters.c`.
- `paircopy`, `pairadd`, pair parsing, and the comparison of check items.
- LDAP_TAILQ_PREV, which compares the back pointer with the wrong address, and the plain list and SLIST macros.
- Sockets, files, logging, process execution and failing memory allocation.
