# mini-tools: verified model of the protocol core

mini-tools is a desktop network toolbox: a BGP simulator, an RPKI-to-Router cache, an FTP server, an SNMP trap receiver, a packet analyser, and a TCP-AO helper that installs TCP Authentication Option keys (RFC 5925) on a listening socket. This project models the parts of it that decide what goes on the wire and which keys are in force, and proves properties of that model in Dafny. There is one module per source file:

- `TcpAo` (scripts/tcp-ao-helper.c) covers key validity windows, the install before bind, the choice of the current send key and the make-before-break rotation tick. setsockopt and bind become calls on a `Kernel` object that logs every request and answers through a fixed oracle.
- `TcpAoJson` (scripts/tcp-ao-json-parser.c) is the character-by-character scanner that reads the key list. Reading at or past the end of a C string gives NUL. In `TcpAo` and `TcpAoJson` one Dafny `char` stands for one octet of a C `char` buffer, so the caps of 63, 79, 1023 and 4095 characters count octets.
- `KeychainManager` (electron/app/keychainManager.js) covers saving and deleting keychains, the active-key lookup and the export of key records for the helper. The clock is a parameter.
- `Asn1` (electron/utils/asn1Parser.js) is the BER reader of ITU-T X.690 for SNMP traps. It is a class whose position each read advances, proved against position-based functions.
- `IpUtils`, `CommonUtils`, `ValidationCommon` and `ArpPacketParser` hold the octet writers, route-distinguisher text, route generation, flag helpers, form validators and the ARP parser of RFC 826.
- `BmpTlvParser` reads BMP TLVs (RFC 7854 section 4.4 with the v4 E-bit and indexed TLVs).
- `BgpPacketParser` (electron/utils/bgpPacketParser.js) covers parseBgpPacket and the OPEN and UPDATE bodies of RFC 4271 section 4: capabilities, withdrawn routes, path attributes, AS_PATH, communities and NLRI.
- `BgpWorkerMessages` and `BgpSimulatorWorker` (electron/worker/bgpSimulatorWorker.js) cover the messages the simulator builds, its receive buffer and state machine, and its route announce and withdraw loops.
- `FtpSession` (electron/worker/ftpSession.js) covers the control connection: CR LF framing, the login gate, and the USER, PASS, TYPE, PORT, PASV and CWD handlers.
- `RpkiSession` (electron/worker/rpkiSession.js) covers the cache side of RFC 6810: PDU framing, the answer to each PDU, and the PDUs it builds.
- `ParserRegistry` holds the packet analyser's table of parsers.
- `Base` and `Bits` give the JavaScript and Node semantics the rest relies on:
  - an index past the end of a Buffer reads `undefined` (`Option`);
  - readUInt16BE and readUInt32BE past the end throw (`Outcome.Threw`);
  - the bitwise operators work on 32-bit values.

Where the source updates an object in place, the model is a class whose methods are proved against specification functions. Those methods are the Asn1 parser, the FTP, RPKI and BGP sessions, the keychain store, the parser registry and the TCP-AO helper. Loops are methods with invariants. Pure code is functions and lemmas.

## Model

| member | source | states |
|---|---|---|
| TcpAo.InWindow | scripts/tcp-ao-helper.c:127-139 | a bound of 0 (or below) is open; otherwise the window includes both ends; 0 and 0 together mean always valid |
| TcpAo.Truncated | scripts/tcp-ao-helper.c:341-349 | strncpy / the key length clamp: at most n characters, a prefix of the input, the whole input when it fits |
| TcpAo.Run | scripts/tcp-ao-helper.c:374-396 | issuing a list of setsockopt calls stops at the first rejection; on success the log gains exactly the calls |
| TcpAo.RunSpec | scripts/tcp-ao-helper.c:374-396 | the run succeeds iff the kernel accepts every call given the log before it; on failure the log ends with the first rejected call |
| TcpAo.NewestSendKey | scripts/tcp-ao-helper.c:303-310 | -1 or the index of a send-valid key |
| TcpAo.NewestSendKeySpec | scripts/tcp-ao-helper.c:303-310 | -1 exactly when no key is send-valid; otherwise the chosen key has the largest keyId among send-valid keys and is the first with it |
| TcpAo.FindNewestSendKey | scripts/tcp-ao-helper.c:303-310 | the loop over the array computes NewestSendKey of the first numKeys keys |
| TcpAo.ConfigureTcpAo | scripts/tcp-ao-helper.c:293-410 | the kernel log is the run of the install plan; result 0 only when every install succeeded and at least one key was installed, else -1 |
| TcpAo.InstallsAreUsable | scripts/tcp-ao-helper.c:318-326 | the plan installs every key usable now (send- or accept-valid) and nothing else |
| TcpAo.ExactlyOneCurrent | scripts/tcp-ao-helper.c:329-356 | exactly one install is flagged current when a send-valid key exists (none otherwise), and it is the newest send key |
| TcpAo.AddSingleKey | scripts/tcp-ao-helper.c:209-260 | a key unusable now is skipped with 0 and no call; otherwise one install with set_current on, result -1 exactly when the kernel rejects it |
| TcpAo.DeleteSingleKey | scripts/tcp-ao-helper.c:263-290 | one delete with prefix 32; -1 exactly when the kernel rejects it |
| TcpAo.RotationAddsSpec | scripts/tcp-ao-helper.c:158-193 | the add phase installs (as current) exactly the keys that were invalid at now - interval, are valid now, and are still valid at the clock reading add_single_key makes for them; empty iff there is none |
| TcpAo.ExpiredBeforeAddSkipped | scripts/tcp-ao-helper.c:185-193 | a key flagged as newly valid whose windows have closed by the time add_single_key reads the clock is not installed |
| TcpAo.RotationRemovesSpec | scripts/tcp-ao-helper.c:164-202 | the remove phase deletes exactly the keys that were valid at now - interval and are invalid now; empty iff there is none |
| TcpAo.MakeBeforeBreak | scripts/tcp-ao-helper.c:183-202 | in a rotation tick every add precedes every remove |
| TcpAo.RotationNoChange | scripts/tcp-ao-helper.c:173-193 | a tick issues no kernel call iff no key became invalid and no key that became valid is still usable when it is added |
| TcpAo.DeleteAllPlan | scripts/tcp-ao-helper.c:95-124 | one delete per stored key, in key order: request i removes key i with prefix length 0 |
| TcpAo.RotationIntervalFor | scripts/tcp-ao-helper.c:601-607 | 60 without the argument; otherwise atoi of it, and exactly 10 when atoi gives less than 10 |
| TcpAo.Helper.constructor | scripts/tcp-ao-helper.c:70-74 | no keys, last check 0, the interval from the optional argument |
| TcpAo.Helper.LoadKeys | scripts/tcp-ao-helper.c:620-641 | keeps at most 4095 characters of the argument, parses at most 10 keys; succeeds iff the parse does, storing the keys and starting the rotation clock |
| TcpAo.Helper.Bootstrap | scripts/tcp-ao-helper.c:462-470 | the keys are installed before bind; bind is attempted only when configure_tcp_ao returned 0 |
| TcpAo.Helper.DeleteAllKeys | scripts/tcp-ao-helper.c:95-124 | asks to delete every stored key whatever the kernel answers, and returns 0 |
| TcpAo.Helper.DiffValidity | scripts/tcp-ao-helper.c:154-171 | the add and remove flags are BecameValid / BecameInvalid of each key, and an update is needed iff some key changed |
| TcpAo.Helper.IssueAdds | scripts/tcp-ao-helper.c:185-193 | the log gains exactly the adds of the tick, in key order, each key checked again at its own clock reading |
| TcpAo.Helper.IssueRemoves | scripts/tcp-ao-helper.c:195-202 | the log gains exactly the removes of the tick, in key order |
| TcpAo.Helper.CheckAndRotateKeys | scripts/tcp-ao-helper.c:142-206 | before the interval has passed nothing changes (last check included); otherwise the last check becomes now and the log gains the adds (under add_single_key's own clock readings) then the removes of the tick |
| TcpAo.Helper.RotateKeys | scripts/tcp-ao-helper.c:150-205 | the log gains the rotation plan of the stored keys, the adds under add_single_key's own clock readings |
| TcpAoJson.SkipWsSpec | scripts/tcp-ao-json-parser.c:29-32 | skip_whitespace stops at the first non-space character (or the terminator) and skips only spaces |
| TcpAoJson.SkipWhitespace | scripts/tcp-ao-json-parser.c:29-32 | the loop stops exactly where SkipWs says: the first character that is not white space, or the end |
| TcpAoJson.FindFromSpec | scripts/tcp-ao-json-parser.c:39-66 | strstr: the result is the first occurrence of the needle, None exactly when there is none |
| TcpAoJson.ValueStart | scripts/tcp-ao-json-parser.c:36-74 | the position after `"key"`, blanks, ':' and blanks, inside the object |
| TcpAoJson.FindValueStart | scripts/tcp-ao-json-parser.c:36-74 | the search for the key, the blanks and the ':' computes ValueStart |
| TcpAoJson.CopyUntilQuoteSpec | scripts/tcp-ao-json-parser.c:52-56 | the copy is the text up to the first quote or terminator, cut at max_len-1 characters |
| TcpAoJson.StringValue | scripts/tcp-ao-json-parser.c:35-59 | a present string value is shorter than max_len (room for the NUL) |
| TcpAoJson.FindStringValue | scripts/tcp-ao-json-parser.c:35-59 | the scan computes StringValue: None without the key, the ':' or the opening quote |
| TcpAoJson.FindIntValue | scripts/tcp-ao-json-parser.c:62-78 | the scan computes IntValue: None without the key or the ':', else atoi of what follows |
| TcpAoJson.KeyFields | scripts/tcp-ao-json-parser.c:168-209 | a parsed key's algorithm and password fit their buffers |
| TcpAoJson.ReadKeyFields | scripts/tcp-ao-json-parser.c:168-209 | the field reads compute KeyFields: keyId, algorithm and password required, times optional |
| TcpAoJson.BraceEndSpec | scripts/tcp-ao-json-parser.c:143-155 | the scan ends just after the first point where the braces balance without a NUL; None exactly when no such point exists |
| TcpAoJson.ScanObject | scripts/tcp-ao-json-parser.c:143-150 | the brace-counting loop computes BraceEnd |
| TcpAoJson.NextStep | scripts/tcp-ao-json-parser.c:121-163 | an object found is a '{'...'}' text of fewer than 1024 characters after the position |
| TcpAoJson.ReadStep | scripts/tcp-ao-json-parser.c:121-163 | one round of the object loop computes NextStep |
| TcpAoJson.ReadObjectKey | scripts/tcp-ao-json-parser.c:120-209 | one round of the object loop: ']' ends the list, a malformed object fails the whole parse, an object without its fields fails it, and an object with them adds exactly its key and moves past it |
| TcpAoJson.Collect | scripts/tcp-ao-json-parser.c:168-211 | the keys are collected exactly when every object yielded one, and then in object order |
| TcpAoJson.ObjectsFrom | scripts/tcp-ao-json-parser.c:120-211 | never more than max_keys objects in all |
| TcpAoJson.ParseKeys | scripts/tcp-ao-json-parser.c:107-120 | None when the first non-space character is not '['; never more than max_keys keys |
| TcpAoJson.ParseKeysJson | scripts/tcp-ao-json-parser.c:107-215 | -1 exactly when ParseKeys fails; otherwise the first count array entries are the parsed keys |
| TcpAoJson.ReadKeys | scripts/tcp-ao-json-parser.c:120-214 | the object loop stores the keys of every object or returns -1 when any object fails |
| TcpAoJson.ParseKeysCap | scripts/tcp-ao-json-parser.c:120 | a smaller max_keys keeps a prefix of the keys |
| TcpAoJson.ParseKeysFit | scripts/tcp-ao-json-parser.c:52-183 | every parsed key fits the C buffers |
| TcpAoJson.CommaRequired | scripts/tcp-ao-json-parser.c:126-134 | an object after the first that is not preceded by ',' fails the parse |
| TcpAoJson.MissingFieldFails | scripts/tcp-ao-json-parser.c:170-183 | a missing keyId, algorithm or password in any object fails the parse |
| TcpAoJson.AbsentTimesAreZero | scripts/tcp-ao-json-parser.c:186-209 | absent sendStart, sendEnd, acceptStart and acceptEnd read as 0 |
| KeychainManager.FindIndex | electron/app/keychainManager.js:21 | findIndex: the first entry with the id, -1 exactly when there is none |
| KeychainManager.FindKeychain | electron/app/keychainManager.js:69-72 | find: None exactly when no entry has the id; otherwise an entry with that id |
| KeychainManager.Saved | electron/app/keychainManager.js:16-28 | afterwards the id finds the new keychain; an existing entry is replaced in place (same length), otherwise it is appended; the replaced entry is the first with that id and every other entry, later ones with the same id included, is unchanged |
| KeychainManager.SaveKeepsOthers | electron/app/keychainManager.js:21-26 | saving does not change what any other id finds |
| KeychainManager.Deleted | electron/app/keychainManager.js:53-57 | the stored list equals a front-to-back filter of the entries whose id differs, so order and repeats are kept |
| KeychainManager.DeletedIsGone | electron/app/keychainManager.js:56 | after deleting, the id finds nothing |
| KeychainManager.DeleteKeepsOthers | electron/app/keychainManager.js:56 | deleting does not change what any other id finds |
| KeychainManager.Covers | electron/app/keychainManager.js:93-101 | 'always' is the epoch and 'forever' 2099-12-31; bounds are inclusive; an unparsable bound (NaN) makes the comparison false |
| KeychainManager.ActiveIndex | electron/app/keychainManager.js:92-102 | the first key in list order whose send and accept lifetimes both cover the time; -1 exactly when none does |
| KeychainManager.GetActiveKey | electron/app/keychainManager.js:80-117 | null for an unknown keychain; a key found belongs to the keychain; null otherwise only when no key is active |
| KeychainManager.KernelAlgorithm | electron/app/keychainManager.js:150-159 | hmac-sha-1 maps to hmac(sha1), every other name to hmac(sha256) |
| KeychainManager.ExportTime | electron/app/keychainManager.js:161-177 | the open word is 0, a date is floor(ms / 1000), anything else is NaN (written as null) |
| KeychainManager.ExportRecord | electron/app/keychainManager.js:179-187 | keyId and password copied, the algorithm mapped, each bound exported by ExportTime |
| KeychainManager.ActiveKeyExportsValid | electron/app/keychainManager.js:92-177 | an active key exports four numeric bounds (none is null) |
| KeychainManager.ExportedWindow | electron/app/keychainManager.js:161-177 | a lifetime covering a time exports to a window that the helper's validity check accepts at that time in seconds |
| KeychainManager.Manager.constructor | electron/app/keychainManager.js:8-11 | the manager holds the stored list |
| KeychainManager.Manager.SaveKeychain | electron/app/keychainManager.js:16-35 | the stored list becomes Saved of the old one |
| KeychainManager.Manager.DeleteKeychain | electron/app/keychainManager.js:53-64 | the stored list becomes Deleted of the old one |
| KeychainManager.Manager.GenerateTcpAoKeysJson | electron/app/keychainManager.js:137-193 | null for an unknown keychain or one without keys; otherwise one record per key, in order, each ExportRecord of it |
| Asn1.UnsignedFour | electron/utils/asn1Parser.js:43-45 | four octets folded big-endian give the 32-bit big-endian value |
| Asn1.ByteAt | electron/utils/asn1Parser.js:376-381 | readByte: past the end it throws and the position stays; otherwise it yields the octet and advances by exactly 1 |
| Asn1.ReadN | electron/utils/asn1Parser.js:68-195 | n readByte calls: a throw exactly when n > 0 octets are not all there (position left at the end); otherwise exactly those octets |
| Asn1.FoldN | electron/utils/asn1Parser.js:292-295 | the `(value << 8) \| readByte()` loop: throws exactly as ReadN does, and the value lies in the signed 32-bit range |
| Asn1.FoldIsUnsigned | electron/utils/asn1Parser.js:43-45 | up to three octets, or four with a clear leading bit, the fold is the plain unsigned value |
| Asn1.LengthAt | electron/utils/asn1Parser.js:341-371 | parseLength: null at the end; the short form gives the octet; 0x80 and counts above 4 give null; 1 to 4 following octets give their big-endian value as a signed 32-bit integer, null when they run out |
| Asn1.LengthRoundTrip | electron/utils/asn1Parser.js:341-371 | a length written in the short form (below 128) or the four-octet long form reads back, with the position just after it |
| Asn1.IntegerValue | electron/utils/asn1Parser.js:42-50 | a leading bit set gives a negative value; otherwise up to four octets give the unsigned value |
| Asn1.IntegerAt | electron/utils/asn1Parser.js:32-53 | parseInteger: throws at the end; null for another tag (one octet consumed) or a null or zero length; otherwise IntegerValue of exactly `length` content octets |
| Asn1.TwosComplement | electron/utils/asn1Parser.js:47-50 | the X.690 section 8.3.3 value: in the signed range of n octets, congruent to the unsigned reading, negative iff the leading bit is set |
| Asn1.IntegerValueShort | electron/utils/asn1Parser.js:42-50 | up to three content octets, parseInteger agrees with two's complement |
| Asn1.IntegerValueFourNegative | electron/utils/asn1Parser.js:42-50 | the encoding of -1 in four octets decodes to -4294967297 |
| Asn1.ArcsFromAppend | electron/utils/asn1Parser.js:103-112 | the subidentifier loop over two runs of octets is the loop over the first, continued over the second |
| Asn1.FirstArcs | electron/utils/asn1Parser.js:93-99 | the first octet splits as 40 * first + second with second below 40 |
| Asn1.FirstArcsX690 | electron/utils/asn1Parser.js:93-99 | the X.690 section 8.19.4 split: first arc 0, 1 or 2 with 40 * first + second equal to the octet |
| Asn1.FirstArcsRoundTrip | electron/utils/asn1Parser.js:93-99 | every first-arc pair that fits one octet reads back under the X.690 split |
| Asn1.FirstArcsAbove119 | electron/utils/asn1Parser.js:94-95 | the octet 120 reads as 3.0 where X.690 reads 2.40 |
| Asn1.OidAt | electron/utils/asn1Parser.js:79-115 | parseObjectIdentifier: throws at the end; null for another tag; a result starts with the two arcs of the first octet, followed by the arcs of the content up to the declared end |
| Asn1.ArcsUntil | electron/utils/asn1Parser.js:103-112 | the loop throws exactly when the declared end lies beyond the buffer; otherwise it stops at the end with the arcs completed there |
| Asn1.ContinuedValue | electron/utils/asn1Parser.js:103-111 | continuation octets accumulate their 7-bit digits without pushing an arc |
| Asn1.Base128Value | electron/utils/asn1Parser.js:103-111 | the base-128 digits of an arc (X.690 section 8.19.2) push exactly that arc |
| Asn1.ArcsRoundTrip | electron/utils/asn1Parser.js:103-112 | encoding a list of arcs below 2^31 in base 128 and running the loop yields the arcs |
| Asn1.OctetStringAt | electron/utils/asn1Parser.js:58-74 | parseOctetString: throws at the end; a result is exactly the content octets after the length |
| Asn1.IpAddressAt | electron/utils/asn1Parser.js:159-176 | parseIpAddress: another tag is put back and answers 0.0.0.0, as does a length other than 4; otherwise the four octets in dotted decimal |
| Asn1.ValueAt | electron/utils/asn1Parser.js:258-336 | parseValue: Unknown at the end or on a null length; the counter types fold `length` octets as 32-bit integers, throwing exactly when the octets run out |
| Asn1.VarBindAt | electron/utils/asn1Parser.js:231-253 | parseVarBind: null at the end or for another tag; a binding read advances the position and carries an OID of at least two arcs |
| Asn1.VarBindsFrom | electron/utils/asn1Parser.js:216-223 | the loop keeps the bindings read before and appends after them |
| Asn1.VarBindListAt | electron/utils/asn1Parser.js:203-226 | parseVarBindList: throws at the end; [] for another tag or a null length |
| Asn1.VarBindListOids | electron/utils/asn1Parser.js:203-244 | every binding in a list has an OID of at least two arcs |
| Asn1.Parser.constructor | electron/utils/asn1Parser.js:8-11 | the parser starts at position 0 |
| Asn1.Parser.ReadByte | electron/utils/asn1Parser.js:376-381 | past the end it throws and the position stays; otherwise it returns the octet and the position advances by 1 |
| Asn1.Parser.ReadBytes | electron/utils/asn1Parser.js:68-71 | the readByte loop computes ReadN and leaves the position where ReadN does |
| Asn1.Parser.ReadFolded | electron/utils/asn1Parser.js:292-295 | the fold loop computes FoldN |
| Asn1.Parser.ParseLength | electron/utils/asn1Parser.js:341-371 | computes LengthAt and leaves the position where it says |
| Asn1.Parser.ReadLengthOctets | electron/utils/asn1Parser.js:363-369 | the long-form loop: the signed 32-bit fold of n octets, or null at the end of the buffer |
| Asn1.Parser.ParseInteger | electron/utils/asn1Parser.js:32-53 | computes IntegerAt |
| Asn1.Parser.ParseOctetString | electron/utils/asn1Parser.js:58-74 | computes OctetStringAt |
| Asn1.Parser.ParseObjectIdentifier | electron/utils/asn1Parser.js:79-115 | computes OidAt |
| Asn1.Parser.ReadArcs | electron/utils/asn1Parser.js:101-112 | the subidentifier loop computes ArcsUntil |
| Asn1.Parser.ParseIpAddress | electron/utils/asn1Parser.js:159-176 | computes IpAddressAt |
| Asn1.Parser.ParseValue | electron/utils/asn1Parser.js:258-336 | computes ValueAt |
| Asn1.Parser.ParseVarBind | electron/utils/asn1Parser.js:231-253 | computes VarBindAt |
| Asn1.Parser.ParseVarBindList | electron/utils/asn1Parser.js:203-226 | computes VarBindListAt |
| Asn1.Parser.ReadVarBinds | electron/utils/asn1Parser.js:213-225 | the binding loop computes VarBindsUntil |
| IpUtils.WriteUInt16 | electron/utils/ipUtils.js:70-72 | two octets whose big-endian reading is the value modulo 2^16 |
| IpUtils.WriteUInt32 | electron/utils/ipUtils.js:79-81 | four octets whose big-endian reading is the value modulo 2^32 |
| IpUtils.WriteUInt16Shifts | electron/utils/ipUtils.js:70-72 | the arithmetic writer equals the source's `[(v >> 8) & 0xff, v & 0xff]` under JS 32-bit shift semantics |
| IpUtils.WriteUInt32Shifts | electron/utils/ipUtils.js:79-81 | the arithmetic writer equals the source's four `(v >> k) & 0xff` octets |
| IpUtils.WriteUInt32Inverse | electron/utils/ipUtils.js:79-81 | reading back a written 32-bit value gives the value |
| IpUtils.WriterOfBE16 | electron/utils/ipUtils.js:70-72 | writing the big-endian reading of two octets gives those octets |
| IpUtils.WriterOfBE32 | electron/utils/ipUtils.js:79-81 | writing the big-endian reading of four octets gives those octets |
| IpUtils.ReadsWritten16 | electron/utils/ipUtils.js:70-72 | a 16-bit value written into a buffer reads back at its offset |
| IpUtils.ReadsWritten32 | electron/utils/ipUtils.js:79-81 | a 32-bit value written into a buffer reads back at its offset |
| IpUtils.EncodeRd | electron/utils/ipUtils.js:99-129 | every well-formed route distinguisher encodes to eight octets |
| IpUtils.DecodeRd | electron/utils/ipUtils.js:104-124 | the fields read from eight octets are well formed for their type |
| IpUtils.RdBufferToString | electron/utils/ipUtils.js:99-129 | returns text exactly when given eight octets, and throws otherwise |
| IpUtils.RdRoundTrip | electron/utils/ipUtils.js:99-129 | the text of an encoded route distinguisher is its display form (administrator:assigned, dotted IPv4 administrator, unknown(type)) |
| IpUtils.RdBufferText | electron/utils/ipUtils.js:99-129 | the text of any eight octets is the display form of their decoded fields |
| IpUtils.RdEncodeDecode | electron/utils/ipUtils.js:104-124 | decoding an encoded route distinguisher gives it back |
| IpUtils.RdDecodeEncode | electron/utils/ipUtils.js:104-124 | encoding the decoded fields of eight octets gives the octets back |
| IpUtils.AsTwoOctetFields | electron/utils/ipUtils.js:108-112 | a type 0 encoding carries the 2-octet administrator at offset 2 and the 4-octet number at 4 |
| IpUtils.Ipv4AdminFields | electron/utils/ipUtils.js:114-118 | a type 1 encoding carries the IPv4 address at offsets 2-5 and the number at 6 |
| IpUtils.AsFourOctetFields | electron/utils/ipUtils.js:120-124 | a type 2 encoding carries the 4-octet administrator at 2 and the number at 6 |
| IpUtils.KeepHigh | electron/utils/ipUtils.js:138-141 | the octet with its n high bits kept: at most the octet, less than 2^(8-n) below it, a multiple of 2^(8-n) |
| IpUtils.PrefixOctetBits | electron/utils/ipUtils.js:138-141 | in the octet where the prefix ends, exactly the bits inside the prefix survive |
| IpUtils.MaskKeepsHigh | electron/utils/ipUtils.js:139-140 | `octet & (0xff & (0xff << (8 - n)))` keeps exactly the n high bits |
| IpUtils.Ipv4BufferToString | electron/utils/ipUtils.js:131-144 | the dotted text of the four prefix octets: the octets present, zero after them, the last prefix octet cut to its prefix bits |
| IpUtils.CopyOctets | electron/utils/ipUtils.js:135-136 | the four-octet buffer holds the given octets, zero after them |
| IpUtils.MaskPartialOctet | electron/utils/ipUtils.js:138-141 | after masking, the buffer holds PrefixOctets |
| IpUtils.NetworkAddress | electron/utils/ipUtils.js:31 | the network address of a CIDR is four octets |
| IpUtils.BaseIntIsBE32 | electron/utils/ipUtils.js:18 | `(b0 << 24) \| (b1 << 16) \| (b2 << 8) \| b3` is the signed 32-bit reading of the octets |
| IpUtils.RouteList | electron/utils/ipUtils.js:22-36 | n routes |
| IpUtils.RouteListAt | electron/utils/ipUtils.js:22-36 | route i is the network of the base advanced by i blocks of 2^(32 - mask), with the mask |
| IpUtils.GenRouteIps | electron/utils/ipUtils.js:12-36 | throws exactly when routes are asked for with a mask outside 0..32; otherwise the route list, empty for a count of 0 or less |
| IpUtils.RouteIsNetwork | electron/utils/ipUtils.js:30-34 | every generated route is a network address: its host bits are zero |
| IpUtils.RoutesStep | electron/utils/ipUtils.js:20-23 | from an aligned base and without wrap-around, route i is exactly the base plus i blocks |
| BmpTlvParser.EBitOfTypeField | electron/utils/bmpTlvParser.js:23-81 | `typeField & 0x8000` is non-zero exactly when the E-bit (the top bit) is set |
| BmpTlvParser.TypeOfTypeField | electron/utils/bmpTlvParser.js:24-82 | `typeField & 0x7fff` is the type field without its E-bit |
| BmpTlvParser.TlvAt | electron/utils/bmpTlvParser.js:18-122 | a TLV read ends after its header and within the buffer |
| BmpTlvParser.TlvAtWellFormed | electron/utils/bmpTlvParser.js:18-122 | every TLV read has a 15-bit type, 16-bit length and index, a value of its declared length, and an enterprise number exactly when the E-bit was set |
| BmpTlvParser.TlvsWellFormed | electron/utils/bmpTlvParser.js:14-130 | every TLV of a parsed list is well formed |
| BmpTlvParser.TlvsRoundTrip | electron/utils/bmpTlvParser.js:14-130 | encoding well-formed TLVs back to back and parsing them from 0 yields exactly those TLVs (plain and indexed) |
| BmpTlvParser.TlvsReadBack | electron/utils/bmpTlvParser.js:14-130 | the same from any position at which the encoding starts and runs to the end |
| BmpTlvParser.FirstTlvReadBack | electron/utils/bmpTlvParser.js:18-57 | the first encoded TLV is read whole and parsing continues where the encoding of the rest begins |
| BmpTlvParser.TlvsFromStep | electron/utils/bmpTlvParser.js:18-62 | a complete TLV is pushed and the loop continues after its value |
| BmpTlvParser.TlvHead | electron/utils/bmpTlvParser.js:18-57 | a well-formed TLV's encoding at a position is read back as that TLV, ending after its value |
| BmpTlvParser.HeaderReads | electron/utils/bmpTlvParser.js:22-91 | the header fields (type with E-bit, index, length) read back from their offsets |
| BmpTlvParser.TlvAtFields | electron/utils/bmpTlvParser.js:18-122 | header fields, enterprise number and value in place give exactly that TLV |
| BmpTlvParser.EnterpriseReads | electron/utils/bmpTlvParser.js:33-102 | the enterprise number is four octets and reads back |
| BmpTlvParser.StepPrefix | electron/utils/bmpTlvParser.js:18-57 | a TLV complete in a prefix of the buffer reads the same in the whole buffer |
| BmpTlvParser.TruncatedPrefix | electron/utils/bmpTlvParser.js:14-130 | the TLVs of a truncated buffer are a prefix of those of the whole: a cut never changes or reorders what is read, it only drops the incomplete tail |
| BmpTlvParser.ReadTypeField | electron/utils/bmpTlvParser.js:22-82 | splits the type field into the E-bit and the 15-bit type |
| BmpTlvParser.ReadTlv | electron/utils/bmpTlvParser.js:20-122 | one loop body: computes TlvAt, none where the source breaks |
| BmpTlvParser.ParseTlvs | electron/utils/bmpTlvParser.js:14-65 | parseTlvs: the TLVs from the offset on, none for a negative offset |
| BmpTlvParser.ParseIndexedTlvs | electron/utils/bmpTlvParser.js:73-130 | parseIndexedTlvs: the same with the index field |
| BmpTlvParser.ParseGroupTlv | electron/utils/bmpTlvParser.js:155-175 | throws exactly when the value is shorter than two octets; otherwise the group index and each following 2-octet NLRI index, an odd trailing octet ignored |
| CommonUtils.BitSet | electron/utils/commonUtils.js:1-3 | each of the 32 bits of the result is set exactly when it is set in flags or in flag |
| CommonUtils.BitReset | electron/utils/commonUtils.js:5-7 | each bit of the result is set exactly when it is set in flags and clear in flag |
| CommonUtils.BitTest | electron/utils/commonUtils.js:9-11 | true exactly when flags and flag share a set bit |
| CommonUtils.SetThenTest | electron/utils/commonUtils.js:1-11 | after setting a non-zero flag, testing it is true |
| CommonUtils.SetIdempotent | electron/utils/commonUtils.js:1-3 | setting a flag twice is setting it once |
| CommonUtils.ResetThenTest | electron/utils/commonUtils.js:5-11 | after resetting a flag, testing it is false |
| CommonUtils.StripSpaces | electron/utils/commonUtils.js:20 | no longer than the input, holds no white space, and is the input itself when that has none |
| CommonUtils.HexPairs | electron/utils/commonUtils.js:28 | at most one octet per two characters |
| CommonUtils.HexPairsAt | electron/utils/commonUtils.js:28 | octet k is the value of hexadecimal digits 2k and 2k+1, both digits |
| CommonUtils.HexPairsAll | electron/utils/commonUtils.js:28 | an even run of hexadecimal digits decodes whole |
| CommonUtils.HexStringToBuffer | electron/utils/commonUtils.js:18-30 | at most one octet per two digits after white space is removed and odd input padded |
| CommonUtils.HexText | electron/utils/commonUtils.js:18-30 | the partner encoder: two hexadecimal digits, no white space, per octet |
| CommonUtils.HexRoundTrip | electron/utils/commonUtils.js:18-30 | hexadecimal text converts back into the octets it was written from |
| CommonUtils.HexTextAt | electron/utils/commonUtils.js:18-30 | octet k is written at characters 2k and 2k+1 |
| CommonUtils.OddDigitsPadded | electron/utils/commonUtils.js:23-25 | an odd number of digits reads as if a '0' led them: the first digit alone makes the first octet |
| ValidationCommon.RangeChecksOfDecimal | src/utils/validationCommon.js:26-60 | the decimal text of n is a number, and is a valid IPv4 mask, IPv6 mask, port or ASN exactly when n is in 1..32, 1..128, 1024..65535 or 1..4294967295 |
| ValidationCommon.LeadingZero | src/utils/validationCommon.js:26-60 | a leading zero changes no number check (Number ignores it) |
| ValidationCommon.ZeroPrefixValue | src/utils/validationCommon.js:30 | a leading zero does not change a digit string's value |
| ValidationCommon.OctetPatternValue | src/utils/validationCommon.js:5 | one octet alternative of the IPv4 pattern matches exactly 1 to 3 digits of value at most 255 |
| ValidationCommon.Ipv4Octets | src/utils/validationCommon.js:5-20 | isValidIpv4 holds exactly when the text splits at '.' into four pieces of 1 to 3 digits, each at most 255 |
| ValidationCommon.OctetTexts | src/utils/validationCommon.js:5 | each octet's decimal text |
| ValidationCommon.DottedIsJoin | src/utils/validationCommon.js:5 | dotted-decimal text is the octet texts joined by '.' |
| ValidationCommon.DottedIsValid | src/utils/validationCommon.js:5-20 | every four octets written in dotted decimal pass isValidIpv4 |
| ValidationCommon.WordAt | src/utils/validationCommon.js:69 | the leading run of non-space characters |
| ValidationCommon.WordAtSpace | src/utils/validationCommon.js:66-69 | trailing white space does not change the first word |
| ValidationCommon.TokensSpace | src/utils/validationCommon.js:66-69 | trailing white space adds no token |
| ValidationCommon.TrimKeepsTokens | src/utils/validationCommon.js:66-69 | trimming a line does not change its tokens |
| ValidationCommon.TrimStartTokens | src/utils/validationCommon.js:66 | trimming the start does not change the tokens |
| ValidationCommon.TrimEndTokens | src/utils/validationCommon.js:66 | trimming the end does not change the tokens |
| ValidationCommon.TokensOfJoin | src/utils/validationCommon.js:69 | words without white space joined by single spaces split back into those words |
| ValidationCommon.WordWhole | src/utils/validationCommon.js:69 | a word followed by white space or nothing is read whole |
| ValidationCommon.ValidatePacketData | src/utils/validationCommon.js:62-86 | success exactly when every token of every line is two hexadecimal digits; otherwise the first bad token and its 1-based line, all lines before it fine |
| ValidationCommon.FormattedRowValid | src/utils/validationCommon.js:62-86 | octets written as hexadecimal pairs separated by spaces form a valid line |
| ValidationCommon.RowTexts | src/utils/validationCommon.js:73 | each octet as an upper-case pair, which matches the two-digit pattern |
| ParserRegistry.GetParser | electron/pktParser/parserRegistry.js:109-113 | no parser exactly when the layer has no table or its table has no entry for the type |
| ParserRegistry.GetProtocolByPort | electron/pktParser/parserRegistry.js:36-38 | a layer exactly when the port is mapped to a non-empty layer name (an empty name is falsy and gives null), and then that name |
| ParserRegistry.RegisterThenGet | electron/pktParser/parserRegistry.js:20-113 | after registering, getParser finds the parser, every other entry is as it was, and the port map gains the entry only for an application protocol |
| ParserRegistry.UnregisterPort | electron/pktParser/parserRegistry.js:54-64 | with a port: that parser is gone, every other is kept, and the port mapping goes only when it names this layer |
| ParserRegistry.UnregisterLayer | electron/pktParser/parserRegistry.js:65-77 | without a port: the whole layer is gone, other layers are kept, and exactly the ports mapped to the layer are removed |
| ParserRegistry.ParseUnregistered | electron/pktParser/parserRegistry.js:124-130 | with no parser for the layer and type, parse fails without calling anything |
| ParserRegistry.ParseStopsWithoutNextLayer | electron/pktParser/parserRegistry.js:134-143 | an accepted result whose payload lacks a type or next layer is returned as it is |
| ParserRegistry.ParsedIsFirstResult | electron/pktParser/parserRegistry.js:133-143 | a chain that parses returns the first parser's own valid result; the later layers' results are dropped |
| ParserRegistry.ParseFailureOrigin | electron/pktParser/parserRegistry.js:123-150 | a missing-parser failure names a layer and type absent from the tables, and a rejection carries an invalid result, at any depth of the chain |
| ParserRegistry.ParsePacket | electron/pktParser/parserRegistry.js:80-101 | success only when an Ethernet parser of type 0 is registered |
| ParserRegistry.Registry.constructor | electron/pktParser/parserRegistry.js:8-11 | both maps start empty |
| ParserRegistry.Registry.RegisterParser | electron/pktParser/parserRegistry.js:20-29 | the new tables are Register of the old |
| ParserRegistry.Registry.UnregisterParser | electron/pktParser/parserRegistry.js:54-78 | the new tables are Unregister of the old |
| ArpPacketParser.UnknownName | electron/pktParser/arpPacketParser.js:59-92 | the fallback name "Unknown (...)" around the given text |
| ArpPacketParser.HardwareTypeName | electron/pktParser/arpPacketParser.js:47-60 | the fallback name exactly when the hardware type is not one of the nine known codes |
| ArpPacketParser.ProtocolTypeName | electron/pktParser/arpPacketParser.js:67-73 | the fallback name with four hexadecimal digits exactly when the type is neither IPv4 (0x0800) nor IPv6 (0x86dd) |
| ArpPacketParser.OperationName | electron/pktParser/arpPacketParser.js:80-93 | the fallback name exactly when the operation is not one of 1..9 |
| ArpPacketParser.UnknownNameReadsBack | electron/pktParser/arpPacketParser.js:59-92 | the number inside an unknown name reads back as the code |
| ArpPacketParser.UnknownProtocolReadsBack | electron/pktParser/arpPacketParser.js:72 | the four hexadecimal digits inside an unknown protocol name read back as the type |
| ArpPacketParser.Hex4 | electron/pktParser/arpPacketParser.js:72-194 | `toString(16).padStart(4, '0')`: four lower-case hexadecimal digits whose value is the number |
| ArpPacketParser.OctetPairs | electron/pktParser/arpPacketParser.js:104-107 | each octet as two upper-case hexadecimal digits |
| ArpPacketParser.MacAddressRoundTrip | electron/pktParser/arpPacketParser.js:100-108 | six octets give six colon-separated pairs that decode back to the octets; any other length gives plain upper-case hex that decodes back |
| ArpPacketParser.Ipv4AddressRoundTrip | electron/pktParser/arpPacketParser.js:115-122 | four octets give a valid dotted IPv4 text whose pieces read back as the octets |
| ArpPacketParser.Ipv6Groups | electron/pktParser/arpPacketParser.js:136-139 | eight groups, group i the four hexadecimal digits of octets 2i and 2i+1 |
| ArpPacketParser.Ipv6AddressRoundTrip | electron/pktParser/arpPacketParser.js:134-140 | sixteen octets under IPv6 give eight colon-separated groups that read back as the octet pairs |
| ArpPacketParser.OtherProtocolAddress | electron/pktParser/arpPacketParser.js:141-144 | any other protocol or length gives upper-case hex that decodes back to the octets |
| ArpPacketParser.ParseArpPacket | electron/pktParser/arpPacketParser.js:154-322 | valid exactly when the 8-octet header and both address pairs fit; a short buffer pushes nothing; otherwise the header node is pushed with its fixed fields, its length is the total only when accepted, and the address fields and any trailing payload follow |
| ArpPacketParser.ReadFixedFields | electron/pktParser/arpPacketParser.js:176-222 | the four fixed fields in order, adjacent from the offset, with their values |
| ArpPacketParser.ReadRest | electron/pktParser/arpPacketParser.js:238-310 | all nine fields named, adjacent and valued, and the payload as PayloadOf says |
| ArpPacketParser.ReadAddressFields | electron/pktParser/arpPacketParser.js:238-296 | the operation and the four address nodes in order, ending after both pairs |
| ArpPacketParser.ReadAddressPair | electron/pktParser/arpPacketParser.js:250-272 | a hardware and a protocol address node, adjacent, formatted by their kind |
| ArpPacketParser.ReadPayload | electron/pktParser/arpPacketParser.js:298-310 | "Additional Data" exactly when octets remain after the addresses, covering them all |
| ArpPacketParser.AppendFields | electron/pktParser/arpPacketParser.js:186-296 | fields pushed after adjacent named fields stay adjacent and named |
| ArpPacketParser.AddressFieldsOf | electron/pktParser/arpPacketParser.js:238-296 | the pushed operation and address nodes carry the values the source shows |
| ArpPacketParser.FixedFieldsKept | electron/pktParser/arpPacketParser.js:238-296 | pushing more fields keeps the fixed fields |
| ArpPacketParser.AdjacentWithin | electron/pktParser/arpPacketParser.js:176-296 | every node of an adjacent run lies inside the run |
| ArpPacketParser.AcceptedCoversBuffer | electron/pktParser/arpPacketParser.js:224-310 | an accepted packet's fields lie inside its header, and header plus payload cover the buffer to its end |
| BgpPacketParser.Subarray | electron/utils/bgpPacketParser.js:221-317 | `subarray` clamps to the end of the buffer: at most n octets |
| BgpPacketParser.PrefixAt | electron/utils/bgpPacketParser.js:214-230 | one prefix: its length octet, and it consumes 1 + ceil(length / 8) octets |
| BgpPacketParser.PrefixesFrom | electron/utils/bgpPacketParser.js:213-327 | the scan never moves backwards, and never throws while the end lies within the buffer |
| BgpPacketParser.PrependNothing | electron/utils/bgpPacketParser.js:213-231 | prefixing no entries leaves a scan unchanged |
| BgpPacketParser.PrependAppend | electron/utils/bgpPacketParser.js:213-231 | prefixing entries one at a time is prefixing them together |
| BgpPacketParser.ReadPrefix | electron/utils/bgpPacketParser.js:214-230 | one loop body: computes PrefixAt |
| BgpPacketParser.PrefixesStep | electron/utils/bgpPacketParser.js:213-231 | the scan is the first prefix followed by the scan from after it |
| BgpPacketParser.ReadPrefixes | electron/utils/bgpPacketParser.js:213-327 | the prefix loop computes PrefixesFrom |
| BgpPacketParser.PrefixRoundTrip | electron/utils/bgpPacketParser.js:214-402 | an encoded prefix reads back with its length, the text of its masked octets, and the position after its ceil(length / 8) octets |
| BgpPacketParser.PrependEmpty | electron/utils/bgpPacketParser.js:413-429 | prefixing no items leaves a result unchanged |
| BgpPacketParser.PrependMore | electron/utils/bgpPacketParser.js:413-429 | prefixing items one at a time is prefixing them together |
| BgpPacketParser.PrependJoin | electron/utils/bgpPacketParser.js:138-194 | prefixing two runs of items is prefixing their concatenation |
| BgpPacketParser.NumbersAt | electron/utils/bgpPacketParser.js:419-422 | count AS numbers |
| BgpPacketParser.SegmentAt | electron/utils/bgpPacketParser.js:414-428 | a segment consumes 2 + 4 * count octets |
| BgpPacketParser.ReadAsNumbers | electron/utils/bgpPacketParser.js:419-422 | throws exactly when the count's 4-octet numbers run past the end; otherwise those numbers |
| BgpPacketParser.ReadSegment | electron/utils/bgpPacketParser.js:414-428 | one loop body: computes SegmentAt |
| BgpPacketParser.ParseAsPath | electron/utils/bgpPacketParser.js:409-432 | the segment loop computes SegmentsFrom |
| BgpPacketParser.Octets32 | electron/utils/bgpPacketParser.js:419-422 | four octets per AS number |
| BgpPacketParser.SegmentOctets | electron/utils/bgpPacketParser.js:414-422 | a segment is 2 + 4 * count octets |
| BgpPacketParser.SegmentsRoundTrip | electron/utils/bgpPacketParser.js:409-432 | encoding well-formed segments (RFC 4271 section 4.3) and parsing them yields exactly those segments |
| BgpPacketParser.SegmentsReadBack | electron/utils/bgpPacketParser.js:409-432 | the same from any position at which the encoding starts |
| BgpPacketParser.FirstSegmentReadBack | electron/utils/bgpPacketParser.js:413-429 | the first encoded segment is read whole and parsing goes on where the rest is encoded |
| BgpPacketParser.SplitEncoded | electron/utils/bgpPacketParser.js:413-429 | an encoded list splits into its first segment and the rest |
| BgpPacketParser.SegmentsUnfold | electron/utils/bgpPacketParser.js:413-429 | a read segment followed by the rest read after it is the whole list |
| BgpPacketParser.SegmentHead | electron/utils/bgpPacketParser.js:414-428 | an encoded segment reads back as itself, ending after its numbers |
| BgpPacketParser.SegmentNumbers | electron/utils/bgpPacketParser.js:419-422 | encoded AS numbers read back |
| BgpPacketParser.NumbersBack | electron/utils/bgpPacketParser.js:419-422 | numbers equal one by one read back as the list |
| BgpPacketParser.Words32At | electron/utils/bgpPacketParser.js:420 | number i is read from offset 4i |
| BgpPacketParser.WordAt | electron/utils/bgpPacketParser.js:420 | a 4-octet word reads back as its value |
| BgpPacketParser.ReadCommunity | electron/utils/bgpPacketParser.js:443-450 | `(value >> 16) & 0xffff` and `value & 0xffff` are the high and low halves (RFC 1997) |
| BgpPacketParser.CommunitiesStep | electron/utils/bgpPacketParser.js:442-451 | the list is the community at i followed by those from i + 4 |
| BgpPacketParser.ParseCommunities | electron/utils/bgpPacketParser.js:439-454 | the community loop computes CommunitiesFrom |
| BgpPacketParser.CommunitiesLength | electron/utils/bgpPacketParser.js:442-443 | parsing succeeds exactly when the value is a whole number of 4-octet communities, one per four octets |
| BgpPacketParser.CommunitiesRoundTrip | electron/utils/bgpPacketParser.js:439-454 | 32-bit values written back to back parse as their communities |
| BgpPacketParser.CommunitiesReadBack | electron/utils/bgpPacketParser.js:439-454 | the same from any position |
| BgpPacketParser.AttributeAt | electron/utils/bgpPacketParser.js:241-257 | an attribute with the Extended Length flag has a 2-octet length and ends 4 + length after its start; otherwise a 1-octet length, ending 3 + length after it |
| BgpPacketParser.ExtendedFlag | electron/utils/bgpPacketParser.js:245 | `flags & 0x10` is non-zero exactly when bit 4 of the flags is set |
| BgpPacketParser.DecodeAttribute | electron/utils/bgpPacketParser.js:267-302 | the switch over the type code computes DetailOf, throwing where a read runs past the value |
| BgpPacketParser.ReadAttribute | electron/utils/bgpPacketParser.js:241-304 | one loop body: computes AttributeAt |
| BgpPacketParser.PrependNoAttributes | electron/utils/bgpPacketParser.js:240-305 | prefixing no attributes leaves a scan unchanged |
| BgpPacketParser.PrependAttributesAppend | electron/utils/bgpPacketParser.js:240-305 | prefixing attributes one at a time is prefixing them together |
| BgpPacketParser.ReadAttributes | electron/utils/bgpPacketParser.js:237-305 | the attribute loop computes AttributesFrom |
| BgpPacketParser.ParseUpdateMessage | electron/utils/bgpPacketParser.js:205-336 | computes UpdateOf: withdrawn routes, path attributes, then NLRI to the end |
| BgpPacketParser.UpdateIs | electron/utils/bgpPacketParser.js:205-235 | a throw in the withdrawn routes throws the message; a path attribute length past the end throws |
| BgpPacketParser.ReadAfterWithdrawn | electron/utils/bgpPacketParser.js:233-335 | computes UpdateAfterWithdrawn |
| BgpPacketParser.ReadAttributesField | electron/utils/bgpPacketParser.js:233-305 | computes AttributesField |
| BgpPacketParser.FinishUpdate | electron/utils/bgpPacketParser.js:307-335 | computes UpdateWith |
| BgpPacketParser.ReadNlri | electron/utils/bgpPacketParser.js:307-327 | the NLRI loop computes NlriAfter, nothing after a NaN position |
| BgpPacketParser.CapabilityAt | electron/utils/bgpPacketParser.js:150-187 | throws exactly when a Multiprotocol or 4-octet AS capability declares 4 or more octets that run past the buffer; a result carries the code and length octets read, and a BGP Role capability its role octet |
| BgpPacketParser.OpenOf | electron/utils/bgpPacketParser.js:112-198 | throws when the buffer ends before the hold time; a result carries the version, AS and hold time read from the header's end |
| BgpPacketParser.ReadCapability | electron/utils/bgpPacketParser.js:150-187 | one loop body: computes CapabilityAt |
| BgpPacketParser.ReadCapabilities | electron/utils/bgpPacketParser.js:149-189 | the capability loop computes CapabilitiesFrom |
| BgpPacketParser.ParseOpenMessage | electron/utils/bgpPacketParser.js:112-198 | parseOpenMessage with both loops computes OpenOf |
| BgpPacketParser.EncodeCapabilities | electron/utils/bgpPacketParser.js:149-189 | two header octets per capability |
| BgpPacketParser.DecodedAll | electron/utils/bgpPacketParser.js:149-189 | one decoded capability per field |
| BgpPacketParser.CapabilitiesReadBack | electron/utils/bgpPacketParser.js:149-189 | capabilities encoded back to back (RFC 5492 section 4) are read back as their decoded values, in order |
| BgpPacketParser.CapabilitiesUnfold | electron/utils/bgpPacketParser.js:149-189 | a capability followed by those after it is the whole list |
| BgpPacketParser.FirstCapabilityReadBack | electron/utils/bgpPacketParser.js:150-188 | the first encoded capability reads back decoded, and the loop goes on where the rest is encoded |
| BgpPacketParser.CapabilityValueAt | electron/utils/bgpPacketParser.js:161-183 | the fields read from a capability's value are those of the value itself |
| BgpPacketParser.ParameterReadBack | electron/utils/bgpPacketParser.js:138-194 | one Capabilities optional parameter (type 2) holding encoded capabilities reads back as them |
| BgpPacketParser.OpenReadBack | electron/utils/bgpPacketParser.js:112-198 | an OPEN with one Capabilities parameter reads back with its version, AS, hold time, router id and the decoded capabilities |
| BgpPacketParser.TruncatedFourOctetAs | electron/utils/bgpPacketParser.js:77-177 | a 4-octet AS capability cut off by the end of the buffer makes the whole packet invalid |
| BgpPacketParser.ParseBgpPacket | electron/utils/bgpPacketParser.js:16-83 | invalid exactly when shorter than 19 octets, exactly when the marker is not 16 all-ones octets, exactly when shorter than the declared length, exactly when the type is not 1..5; a valid packet has the header's type and length, and a KEEPALIVE no body |
| BgpWorkerMessages.BuildBgpMessageHeader | electron/worker/bgpSimulatorWorker.js:251-257 | throws exactly when the length does not fit writeUInt16BE; otherwise 19 octets: the all-ones marker, then the big-endian length |
| BgpWorkerMessages.ParseBgpHeader | electron/worker/bgpSimulatorWorker.js:104-114 | null exactly when shorter than 19 octets; otherwise the length at octet 16 and the type at octet 18 |
| BgpWorkerMessages.HeaderRoundTrip | electron/worker/bgpSimulatorWorker.js:104-257 | a built header parses back to its length and type, whatever follows it |
| BgpWorkerMessages.BuildKeepAliveMsg | electron/worker/bgpSimulatorWorker.js:288-299 | the KEEPALIVE is exactly the 19-octet header of length 19 and type KEEPALIVE |
| BgpWorkerMessages.KeepAliveParses | electron/worker/bgpSimulatorWorker.js:288-299 | the KEEPALIVE the simulator sends is a valid KEEPALIVE of length 19 with no body to parseBgpPacket |
| BgpWorkerMessages.BuildPathAttribute | electron/worker/bgpSimulatorWorker.js:342-353 | flags, type, a 1-octet length for values up to 255 octets and a 2-octet one beyond, then the value |
| BgpWorkerMessages.PathAttributeReadBack | electron/worker/bgpSimulatorWorker.js:342-353 | an attribute whose Extended Length flag matches its length width reads back as its flags, type and value, wherever it sits |
| BgpWorkerMessages.PackedEnd | electron/worker/bgpSimulatorWorker.js:583-600 | that packing stops at a route index between the start and the end of the list |
| BgpWorkerMessages.NlriAppend | electron/worker/bgpSimulatorWorker.js:586-592 | packing one more route appends its entry |
| BgpWorkerMessages.NlriLength | electron/worker/bgpSimulatorWorker.js:584-592 | those packed NLRI of well-formed routes has the size of their entries, mask octet plus ceil(mask / 8) each |
| BgpWorkerMessages.PackedFits | electron/worker/bgpSimulatorWorker.js:586 | those packed routes keep the message under BGP_MAX_PKT_SIZE, unless none were packed |
| BgpWorkerMessages.PackedMaximal | electron/worker/bgpSimulatorWorker.js:586-600 | that packing stops early only when the next route would reach BGP_MAX_PKT_SIZE |
| BgpWorkerMessages.PackNlri | electron/worker/bgpSimulatorWorker.js:583-652 | the NLRI loop packs exactly the routes PackedEnd allows, as their entries in order |
| BgpWorkerMessages.UpdateMsgIpv4 | electron/worker/bgpSimulatorWorker.js:541-625 | a built UPDATE is framed (marker, its own length, type UPDATE), and the index never goes back |
| BgpWorkerMessages.UpdateWithAttributes | electron/worker/bgpSimulatorWorker.js:574-616 | the same for any path attributes |
| BgpWorkerMessages.AssembleUpdate | electron/worker/bgpSimulatorWorker.js:602-616 | the assembled message is framed and returns that packing's index |
| BgpWorkerMessages.BuildUpdateMsgIpv4 | electron/worker/bgpSimulatorWorker.js:541-625 | computes UpdateMsgIpv4 |
| BgpWorkerMessages.BuildUpdateWithAttributes | electron/worker/bgpSimulatorWorker.js:574-616 | computes UpdateWithAttributes |
| BgpWorkerMessages.WithdrawMsgIpv4 | electron/worker/bgpSimulatorWorker.js:627-677 | a built WITHDRAW is framed and the index never goes back |
| BgpWorkerMessages.BuildWithdrawMsgIpv4 | electron/worker/bgpSimulatorWorker.js:627-677 | computes WithdrawMsgIpv4 |
| BgpWorkerMessages.NlriAtMost | electron/worker/bgpSimulatorWorker.js:584-592 | those packed NLRI is never longer than the sizes the loop adds up |
| BgpWorkerMessages.UpdateMsgFits | electron/worker/bgpSimulatorWorker.js:581-616 | an UPDATE that announces anything stays under BGP_MAX_PKT_SIZE, and leaves out a route only when it would have reached that size |
| BgpWorkerMessages.WithdrawProgress | electron/worker/bgpSimulatorWorker.js:633-668 | every WITHDRAW withdraws at least one route and stays under BGP_MAX_PKT_SIZE |
| BgpWorkerMessages.PrefixesOf | electron/worker/bgpSimulatorWorker.js:587-589 | one prefix per packed route |
| BgpWorkerMessages.NlriReadBack | electron/worker/bgpSimulatorWorker.js:586-600 | packed NLRI reads back, through the parser's prefix loop, as the routes' prefixes in order |
| BgpWorkerMessages.NoEntriesReadBack | electron/worker/bgpSimulatorWorker.js:586-600 | no packed routes read back as no prefixes |
| BgpWorkerMessages.FirstEntryReadBack | electron/worker/bgpSimulatorWorker.js:587-592 | the first packed entry reads back and the loop goes on where the rest is packed |
| BgpWorkerMessages.EntryReadBack | electron/worker/bgpSimulatorWorker.js:587-589 | one entry reads back as its prefix, followed by the rest |
| BgpWorkerMessages.EntryAt | electron/worker/bgpSimulatorWorker.js:587-589 | one entry parses as its route's prefix and ends after its octets |
| BgpWorkerMessages.PrefixesCons | electron/worker/bgpSimulatorWorker.js:587-589 | a prefix read followed by the rest is the scan |
| BgpWorkerMessages.WithdrawRoundTrip | electron/worker/bgpSimulatorWorker.js:627-677 | a WITHDRAW the simulator sends parses back as an UPDATE withdrawing exactly those packed routes, with no attributes and no NLRI |
| BgpWorkerMessages.WithdrawLayout | electron/worker/bgpSimulatorWorker.js:654-663 | where the withdrawn length, withdrawn routes and empty attribute length sit |
| BgpWorkerMessages.WithdrawnOnly | electron/worker/bgpSimulatorWorker.js:654-663 | that layout parses as an UPDATE with only withdrawn routes |
| BgpWorkerMessages.AnnounceRoundTrip | electron/worker/bgpSimulatorWorker.js:541-625 | an UPDATE sent without custom attributes announces at least one route and parses back as the four standard attributes and exactly those packed routes |
| BgpWorkerMessages.UpdateLayout | electron/worker/bgpSimulatorWorker.js:575-611 | where the empty withdrawn length, attribute length, attributes and NLRI sit |
| BgpWorkerMessages.AnnouncedOnly | electron/worker/bgpSimulatorWorker.js:575-611 | that layout parses as an UPDATE with attributes and NLRI only |
| BgpWorkerMessages.StandardAttributesRead | electron/worker/bgpSimulatorWorker.js:548-557 | ORIGIN, AS_PATH, NEXT_HOP and MED read back as their attributes |
| BgpWorkerMessages.StandardFlags | electron/worker/bgpSimulatorWorker.js:355-377 | the transitive and optional flags the builders use lack Extended Length |
| BgpWorkerMessages.StandardDetails | electron/worker/bgpSimulatorWorker.js:355-377 | the standard attributes decode to IGP, one AS_SEQUENCE of the local AS, the next hop, and MED 0 |
| BgpWorkerMessages.AttributesCons | electron/worker/bgpSimulatorWorker.js:342-353 | an attribute read followed by the rest is the attribute scan |
| BgpSimulatorWorker.AnnouncedRoutes | electron/worker/bgpSimulatorWorker.js:727-733 | generating the routes throws exactly when routes are asked for with a mask outside 0..32; otherwise there are count routes (none for a count of 0 or less), each with a well-formed prefix and mask |
| BgpSimulatorWorker.AnnouncedIsGenerated | electron/worker/bgpSimulatorWorker.js:727 | the k-th announced route is the k-th route genRouteIps generates from the prefix, mask and count |
| BgpSimulatorWorker.MessagesStep | electron/worker/bgpSimulatorWorker.js:744-754 | one turn of the send loop: a built message is written and the loop resumes at the index the builder returned; a failed build ends the loop |
| BgpSimulatorWorker.WithdrawMessagesStep | electron/worker/bgpSimulatorWorker.js:799-809 | every withdraw build from a route index below the count succeeds and moves the index forward, so the loop writes that message and continues from the new index |
| BgpSimulatorWorker.PrefixesOfAppend | electron/worker/bgpSimulatorWorker.js:744-754 | the prefixes of consecutive route ranges concatenate to the prefixes of the joined range |
| BgpSimulatorWorker.AnnounceAll | electron/worker/bgpSimulatorWorker.js:741-754 | without a custom attribute, the UPDATEs the IPv4 loop writes carry in their NLRI fields exactly the generated prefixes, in order, each once |
| BgpSimulatorWorker.WithdrawAll | electron/worker/bgpSimulatorWorker.js:796-809 | the withdraw messages the IPv4 loop writes carry in their withdrawn-routes fields exactly the generated prefixes, in order, each once |
| BgpSimulatorWorker.WriteAll | electron/worker/bgpSimulatorWorker.js:747-802 | writing on a missing socket raises exactly when there is something to write; otherwise the messages are appended to what was written, and state, buffer and stored route are kept |
| BgpSimulatorWorker.SendRouteSpec | electron/worker/bgpSimulatorWorker.js:718-771 | sending routes never changes the FSM state, the receive buffer or whether the socket is open |
| BgpSimulatorWorker.WithdrawRouteSpec | electron/worker/bgpSimulatorWorker.js:773-826 | withdrawing routes never changes the FSM state, the receive buffer or whether the socket is open |
| BgpSimulatorWorker.RequestsNeedEstablished | electron/worker/bgpSimulatorWorker.js:719-780 | outside Established, a send or withdraw request is rejected and the session is left exactly as it was |
| BgpSimulatorWorker.SendRouteKeepsValid | electron/worker/bgpSimulatorWorker.js:735-794 | sending and withdrawing keep the session invariant: any stored route is one whose routes were generated without error |
| BgpSimulatorWorker.Resend | electron/worker/bgpSimulatorWorker.js:144-165 | resending the stored route keeps the receive buffer and is never a rejection |
| BgpSimulatorWorker.ResendWrites | electron/worker/bgpSimulatorWorker.js:144-165 | on an open Established session, resending is accepted, stays Established, keeps the invariant and writes exactly the UPDATEs for the stored route |
| BgpSimulatorWorker.OnPacketSpec | electron/worker/bgpSimulatorWorker.js:133-168 | handling one message by its type keeps the receive buffer and is never a rejection |
| BgpSimulatorWorker.KeepAliveEstablishes | electron/worker/bgpSimulatorWorker.js:137-150 | a KEEPALIVE received before Established answers with a KEEPALIVE, enters Established and resends the stored route |
| BgpSimulatorWorker.StateTransitions | electron/worker/bgpSimulatorWorker.js:133-157 | an OPEN on an open socket moves to OpenConfirm; a NOTIFICATION moves to Idle and closes the socket |
| BgpSimulatorWorker.OnPacketKeepsValid | electron/worker/bgpSimulatorWorker.js:133-168 | handling any message type keeps the session invariant |
| BgpSimulatorWorker.DeclaredLength | electron/worker/bgpSimulatorWorker.js:104-122 | a declared length is read exactly when the buffer holds a whole 19-octet header |
| BgpSimulatorWorker.FramesThenSuffix | electron/worker/bgpSimulatorWorker.js:171 | what is left after dropping whole messages is a suffix of the buffer |
| BgpSimulatorWorker.HandlerKeepsBuffer | electron/worker/bgpSimulatorWorker.js:133-168 | the per-message handler never touches the receive buffer; only the loop drops octets |
| BgpSimulatorWorker.DrainConsumesFrames | electron/worker/bgpSimulatorWorker.js:116-173 | the receive loop drops only whole messages of positive declared length, what stays is a suffix of the buffer, and when the loop ends normally what stays is an incomplete message |
| BgpSimulatorWorker.DrainWithFrames | electron/worker/bgpSimulatorWorker.js:121-172 | for any handler that keeps the buffer, the loop drops only whole messages |
| BgpSimulatorWorker.DrainFramesStep | electron/worker/bgpSimulatorWorker.js:130-171 | one handled message followed by whole messages is itself a run of whole messages |
| BgpSimulatorWorker.DrainLeavesIncomplete | electron/worker/bgpSimulatorWorker.js:121-127 | the loop ends normally only when no complete message is left in the buffer |
| BgpSimulatorWorker.DrainStops | electron/worker/bgpSimulatorWorker.js:121-127 | with less than a header, or less than the declared length, the loop does nothing |
| BgpSimulatorWorker.DrainHandles | electron/worker/bgpSimulatorWorker.js:130-171 | with a complete message at the front, the loop handles it by type and continues on the rest; a raised error stops it with the buffer unchanged |
| BgpSimulatorWorker.NothingConsumed | electron/worker/bgpSimulatorWorker.js:125-127 | dropping nothing is a run of zero whole messages |
| BgpSimulatorWorker.FramesCons | electron/worker/bgpSimulatorWorker.js:171 | a whole message of positive declared length followed by whole messages is a run of whole messages |
| BgpSimulatorWorker.DrainFront | electron/worker/bgpSimulatorWorker.js:130-171 | a framed message at the front of the buffer is handled by its type byte and removed |
| BgpSimulatorWorker.OpenStep | electron/worker/bgpSimulatorWorker.js:133-171 | a received OPEN answers with a KEEPALIVE, moves to OpenConfirm and is removed from the buffer |
| BgpSimulatorWorker.KeepAliveStep | electron/worker/bgpSimulatorWorker.js:137-171 | a received KEEPALIVE before Established with nothing stored answers with a KEEPALIVE, moves to Established and is removed from the buffer |
| BgpSimulatorWorker.ConnectedSpec | electron/worker/bgpSimulatorWorker.js:56-61 | on connection the socket is open, the OPEN has been written and the state is OpenSent; the buffer is kept |
| BgpSimulatorWorker.Handshake | electron/worker/bgpSimulatorWorker.js:56-173 | after the peer connects, its OPEN and KEEPALIVE in one chunk bring the session to Established with an empty buffer, having written OPEN, KEEPALIVE, KEEPALIVE |
| BgpSimulatorWorker.OpenThenKeepAlive | electron/worker/bgpSimulatorWorker.js:133-150 | an OPEN followed by a KEEPALIVE in the buffer reaches Established, writes two KEEPALIVEs and empties the buffer |
| BgpSimulatorWorker.LastKeepAlive | electron/worker/bgpSimulatorWorker.js:137-150 | a buffer holding exactly one KEEPALIVE reaches Established and is emptied |
| BgpSimulatorWorker.ShortLengthHandled | electron/worker/bgpSimulatorWorker.js:125-171 | a header declaring a length of 5 is still handled by its type byte and drops only 5 octets |
| BgpSimulatorWorker.DrainKeepsValid | electron/worker/bgpSimulatorWorker.js:116-173 | the receive loop keeps the session invariant |
| BgpSimulatorWorker.DrainWithKeepsValid | electron/worker/bgpSimulatorWorker.js:121-172 | a loop over handlers that keep the invariant keeps it |
| BgpSimulatorWorker.DrainStepAsWritten | electron/worker/bgpSimulatorWorker.js:121-171 | one turn of the loop as written: with a complete message it drops exactly the declared length, which may be 0 |
| BgpSimulatorWorker.ZeroLengthStalls | electron/worker/bgpSimulatorWorker.js:121-171 | a KEEPALIVE header declaring length 0 leaves the buffer unchanged after a turn of the loop as written, so the loop never ends |
| BgpSimulatorWorker.SendStepAsWritten | electron/worker/bgpSimulatorWorker.js:744-754 | one turn of the IPv4 send loop as written never moves the route index backwards |
| BgpSimulatorWorker.SendRouteStalls | electron/worker/bgpSimulatorWorker.js:744-754 | with a 4050-octet custom attribute, no route fits, the build still succeeds and returns index 0, so the loop as written never ends |
| BgpSimulatorWorker.Worker.constructor | electron/worker/bgpSimulatorWorker.js:11-32 | a new worker is Idle with an empty buffer, nothing stored, no socket and nothing written |
| BgpSimulatorWorker.Worker.Connected | electron/worker/bgpSimulatorWorker.js:56-61 | the connection callback moves the worker to ConnectedSpec of its old state |
| BgpSimulatorWorker.Worker.SocketClosed | electron/worker/bgpSimulatorWorker.js:68-81 | end, close and error drop the socket and change nothing else |
| BgpSimulatorWorker.Worker.StopBgp | electron/worker/bgpSimulatorWorker.js:317-340 | stopping drops the socket and returns to Idle, keeping the buffer and the stored route |
| BgpSimulatorWorker.Worker.SendKeepAliveMsg | electron/worker/bgpSimulatorWorker.js:301-308 | writes one KEEPALIVE, raising when there is no socket |
| BgpSimulatorWorker.Worker.SendRoute | electron/worker/bgpSimulatorWorker.js:718-771 | the new worker state and reply are SendRouteSpec of the old state |
| BgpSimulatorWorker.Worker.WriteUpdates | electron/worker/bgpSimulatorWorker.js:741-754 | the send loop writes exactly the UPDATE messages the builder produces from index 0 |
| BgpSimulatorWorker.Worker.WithdrawRoute | electron/worker/bgpSimulatorWorker.js:773-826 | the new worker state and reply are WithdrawRouteSpec of the old state |
| BgpSimulatorWorker.Worker.WriteWithdraws | electron/worker/bgpSimulatorWorker.js:796-809 | the withdraw loop writes exactly the withdraw messages the builder produces from index 0 |
| BgpSimulatorWorker.Worker.ResendStored | electron/worker/bgpSimulatorWorker.js:144-165 | the new worker state and reply are Resend of the old state |
| BgpSimulatorWorker.Worker.OnPacket | electron/worker/bgpSimulatorWorker.js:133-168 | the new worker state and reply are OnPacketSpec of the old state |
| BgpSimulatorWorker.Worker.HandleBgpPacket | electron/worker/bgpSimulatorWorker.js:116-173 | appends the chunk and runs the receive loop: the new state and reply are HandleSpec of the old state |
| FtpSession.Initial | electron/worker/ftpSession.js:17-26 | a new session is not logged in, has no name, sits at "/", uses ASCII and has sent and requested nothing |
| FtpSession.AttachSpec | electron/worker/ftpWorker.js:101-106 | attaching the socket records the local address and sends the 220 greeting |
| FtpSession.Reply | electron/worker/ftpSession.js:599-604 | a reply is appended to what the client received exactly when the socket is there, and nothing else changes |
| FtpSession.CrlfPieces | electron/worker/ftpSession.js:585 | splitting at CR LF always gives at least one piece |
| FtpSession.CrlfPiecesJoin | electron/worker/ftpSession.js:585 | joining the pieces with CR LF gives back the received text |
| FtpSession.CrlfPiecesClean | electron/worker/ftpSession.js:585 | no piece contains a CR LF |
| FtpSession.CrlfPiecesAppend | electron/worker/ftpSession.js:584-589 | splitting x + y keeps every complete piece of x and splits its unterminated rest together with y |
| FtpSession.JoinCrlfTerminated | electron/worker/ftpSession.js:585-589 | the joined pieces are the complete lines, each followed by CR LF, then the last piece |
| FtpSession.Upper | electron/worker/ftpSession.js:46 | upper-casing keeps the length and maps each character on its own |
| FtpSession.CommandParts | electron/worker/ftpSession.js:45-47 | the command word holds no space, and it is the whole command or the text before the first space, the arguments being all the rest |
| FtpSession.DigitPrefix | electron/worker/ftpSession.js:202 | the digits parseInt reads are the longest run of decimal digits at the start of the text |
| FtpSession.DigitPrefixAll | electron/worker/ftpSession.js:202 | a text of digits only is read whole |
| FtpSession.ParseDecimal | electron/worker/ftpSession.js:202 | parseInt reads back the decimal text of any natural number |
| FtpSession.UserSpec | electron/worker/ftpSession.js:93-101 | USER keeps the name exactly when it is the configured one and never changes the login |
| FtpSession.PassMatch | electron/worker/ftpSession.js:103-125 | PASS logs in exactly when the kept name and the password match the configuration, and then moves to "/"; otherwise only the 530 reply is added |
| FtpSession.TypeModes | electron/worker/ftpSession.js:135-145 | TYPE A selects ASCII, TYPE I binary, and anything else leaves the session as it was with a 504 |
| FtpSession.PortFields | electron/worker/ftpSession.js:193-206 | PORT without six comma-separated fields only replies 501; with six it sets the host from the first four, the port to p5 * 256 + p6, leaves passive mode and replies 200 |
| FtpSession.PortValueDecimal | electron/worker/ftpSession.js:202 | two decimal fields designate the port hi * 256 + lo |
| FtpSession.PortOfFields | electron/worker/ftpSession.js:193-206 | six comma-free fields joined by commas give the host of the first four and the port of the last two |
| FtpSession.OptsSpec | electron/worker/ftpSession.js:565-572 | OPTS only replies, 200 for UTF8 in any case and 501 otherwise |
| FtpSession.FeatSpec | electron/worker/ftpSession.js:555-563 | FEAT only replies |
| FtpSession.QuitSpec | electron/worker/ftpSession.js:578-613 | after QUIT the socket is gone and passive mode is off |
| FtpSession.Clean | electron/worker/ftpSession.js:340 | cleaning keeps only segments of the path that are neither empty nor "." |
| FtpSession.Resolve | electron/worker/ftpSession.js:341-349 | the resolved stack holds no "..", only segments of the path |
| FtpSession.ResolveSegments | electron/worker/ftpSession.js:341-349 | the segment loop builds exactly the resolved stack |
| FtpSession.CleanAppend | electron/worker/ftpSession.js:340 | cleaning distributes over concatenation |
| FtpSession.CleanPlain | electron/worker/ftpSession.js:340 | cleaning keeps a list of plain segments as it is |
| FtpSession.ResolveAppendPlain | electron/worker/ftpSession.js:341-349 | segments other than ".." are pushed as they are |
| FtpSession.ResolvePrefix | electron/worker/ftpSession.js:341-349 | resolving a prefix first does not change the result |
| FtpSession.ResolveStep | electron/worker/ftpSession.js:343-348 | one more segment either pops the stack or is pushed |
| FtpSession.PathSegmentsPlain | electron/worker/ftpSession.js:340-349 | every resolved segment is plain: not empty, ".", ".." and no '/' |
| FtpSession.RootedSplit | electron/worker/ftpSession.js:351 | splitting a rooted path at '/' gives an empty piece and then its segments |
| FtpSession.RootedSegments | electron/worker/ftpSession.js:340-351 | normalising a rooted path of plain segments gives back those segments |
| FtpSession.NormalizedClean | electron/worker/ftpSession.js:336-351 | a normalised path starts with '/', has plain segments and normalising it again changes nothing |
| FtpSession.CleanRooted | electron/worker/ftpSession.js:340-351 | cleaning the pieces of a rooted path gives back its segments |
| FtpSession.RootJoinSegments | electron/worker/ftpSession.js:357 | joining a rooted path to the root directory appends its segments to the root's |
| FtpSession.CwdStaysInRoot | electron/worker/ftpSession.js:328-357 | the corrected CWD target, for any argument, is a normalised absolute path that, joined to the root directory, stays inside it |
| FtpSession.CwdEscapesRoot | electron/worker/ftpSession.js:331-357 | as written, "CWD /.." is taken unnormalised and joined to the root directory names the root's parent, outside it |
| FtpSession.ParentPieces | electron/worker/ftpSession.js:340 | "/.." cleans to the single segment ".." |
| FtpSession.CwdSpec | electron/worker/ftpSession.js:328-360 | CWD asks the file system about the corrected target and changes nothing else |
| FtpSession.CwdDoneSpec | electron/worker/ftpSession.js:360-375 | only a readable directory becomes the current directory |
| FtpSession.HostFields | electron/worker/ftpSession.js:166-181 | the PASV reply always carries at least one host field |
| FtpSession.ListeningSpec | electron/worker/ftpSession.js:164-185 | once the passive listener is up the session is in passive mode |
| FtpSession.PasvPortAgree | electron/worker/ftpSession.js:164-206 | the six numbers a PASV reply announces, sent back in a PORT command, designate the same port and the local host (127.0.0.1 for an IPv6 address) |
| FtpSession.PasvFields | electron/worker/ftpSession.js:169-181 | the PASV numbers are the host fields, then port / 256 and port % 256, joined by commas |
| FtpSession.PasvText | electron/worker/ftpSession.js:177-181 | the PASV reply is the fixed text, the host numbers, the two port numbers and a closing parenthesis |
| FtpSession.Dispatch | electron/worker/ftpSession.js:56-91 | a handler throws exactly when it reads the missing user configuration |
| FtpSession.CommandSpec | electron/worker/ftpSession.js:56-91 | an unknown command gets 502 and a command that needs a login gets 530 before login |
| FtpSession.LoginGate | electron/worker/ftpSession.js:79-90 | before login, any command outside the seven served ones only adds one reply, 530 or 502 |
| FtpSession.OnlyPassLogsIn | electron/worker/ftpSession.js:79-125 | before login, the only command that logs in is PASS with the configured password after USER gave the configured name |
| FtpSession.NoAuthKeepsLogin | electron/worker/ftpSession.js:93-581 | the commands served before login, other than PASS, never change the login |
| FtpSession.ProcessAllStep | electron/worker/ftpSession.js:591-595 | one more line is processed on the state the earlier lines left |
| FtpSession.ProcessAllAppend | electron/worker/ftpSession.js:591-595 | processing a + b is processing a, then b |
| FtpSession.RecvFraming | electron/worker/ftpSession.js:583-597 | what recvMsg consumes is exactly its complete lines, each with its CR LF, in order; what it keeps holds no CR LF |
| FtpSession.RecvChunks | electron/worker/ftpSession.js:583-597 | two recvMsg calls do what one call with both chunks does |
| FtpSession.Session.constructor | electron/worker/ftpSession.js:6-27 | a new session is Initial with an empty receive buffer |
| FtpSession.Session.Attach | electron/worker/ftpWorker.js:101-106 | the new state is AttachSpec of the old one |
| FtpSession.Session.SendMsg | electron/worker/ftpSession.js:599-604 | the new state is Reply of the old one |
| FtpSession.Session.HandleUser | electron/worker/ftpSession.js:93-101 | the new state is UserSpec of the old one |
| FtpSession.Session.HandlePass | electron/worker/ftpSession.js:103-125 | the new state is PassSpec of the old one |
| FtpSession.Session.HandleType | electron/worker/ftpSession.js:135-145 | the new state is TypeSpec of the old one |
| FtpSession.Session.HandlePort | electron/worker/ftpSession.js:193-206 | the new state is PortSpec of the old one |
| FtpSession.Session.HandleCwd | electron/worker/ftpSession.js:328-360 | the new state is CwdSpec of the old one, with the corrected target |
| FtpSession.Session.CwdChecked | electron/worker/ftpSession.js:360-375 | the new state is CwdDoneSpec of the old one |
| FtpSession.Session.PassiveListening | electron/worker/ftpSession.js:164-185 | the new state is ListeningSpec of the old one |
| FtpSession.Session.HandleQuit | electron/worker/ftpSession.js:578-581 | the new state is QuitSpec of the old one |
| FtpSession.Session.HandleFeat | electron/worker/ftpSession.js:555-563 | the new state is FeatSpec of the old one |
| FtpSession.Session.HandleOpts | electron/worker/ftpSession.js:565-572 | the new state is OptsSpec of the old one |
| FtpSession.Session.HandleCommand | electron/worker/ftpSession.js:56-91 | throws exactly when CommandSpec throws, leaving the state as it was; otherwise the new state is CommandSpec's |
| FtpSession.Session.HandleKnown | electron/worker/ftpSession.js:87 | a command past the gates moves to Dispatch of the old state |
| FtpSession.Session.ProcessMessage | electron/worker/ftpSession.js:38-54 | the new state is ProcessSpec of the old one, with 500 for a handler that throws |
| FtpSession.Session.RecvMsg | electron/worker/ftpSession.js:583-597 | the new state and receive buffer are RecvSpec of the old ones |
| FtpSession.Session.ProcessLines | electron/worker/ftpSession.js:591-595 | the loop processes the lines in order, as ProcessAll does |
| FtpSession.Session.ProcessLine | electron/worker/ftpSession.js:592-594 | an empty line is skipped, any other is processed |
| RpkiSession.ParseHeader | electron/worker/rpkiSession.js:82-88 | the header is read exactly when 8 octets are there (shorter, readUInt32BE throws) |
| RpkiSession.HeaderBytes | electron/worker/rpkiSession.js:271-276 | every header written is 8 octets long |
| RpkiSession.HeaderRoundTrip | electron/worker/rpkiSession.js:82-276 | a written header reads back to its version, type, field and length, whatever follows it |
| RpkiSession.HeaderOfBytes | electron/worker/rpkiSession.js:82-88 | writing back the fields read from 8 octets gives those octets |
| RpkiSession.FramedByHeader | electron/worker/rpkiSession.js:271-276 | a header whose length field counts itself and its body frames the PDU |
| RpkiSession.AddressSize | electron/worker/rpkiSession.js:295-368 | an IPv4 prefix takes 4 address octets and an IPv6 prefix 16 |
| RpkiSession.AddressOctets | electron/worker/rpkiSession.js:320-360 | the address field keeps the ROA's octets and zero-fills what they do not cover, at exactly the field's width |
| RpkiSession.HeaderPdu | electron/worker/rpkiSession.js:268-492 | Reset Query, Cache Response and Cache Reset are framed 8-octet PDUs |
| RpkiSession.PrefixPdu | electron/worker/rpkiSession.js:295-441 | a Prefix PDU is framed and is 20 octets for IPv4 and 32 for IPv6 |
| RpkiSession.DecodePrefix | electron/worker/rpkiSession.js:136-196 | a decoded prefix carries 4 or 16 address octets |
| RpkiSession.PrefixLayout | electron/worker/rpkiSession.js:295-368 | the Prefix PDU reads back to the version, the prefix type, its own length, the flags, prefix length, max length, a zero octet, the address and the AS number (RFC 6810 section 5.6-5.7) |
| RpkiSession.WithdrawOnlyFlags | electron/worker/rpkiSession.js:295-441 | the withdraw PDU differs from the announce PDU only in the flags octet |
| RpkiSession.EndOfDataPdu | electron/worker/rpkiSession.js:443-480 | End of Data is framed at every version |
| RpkiSession.EndOfDataLayout | electron/worker/rpkiSession.js:443-480 | at version 0, 12 octets with the session id in octets 2-3 and serial 0; above, 26 octets with the session id after the header, serial 1 and the 3600, 600, 7200 second timers |
| RpkiSession.ErrorPdu | electron/worker/rpkiSession.js:494-507 | the error report is a framed 10-octet PDU with the version, the ERROR type, a zero field and the error code |
| RpkiSession.WriteOctets | electron/worker/rpkiSession.js:297-326 | writing at a position sets those octets and leaves every earlier one alone |
| RpkiSession.PutOctets | electron/worker/rpkiSession.js:297-326 | writing the next part of a PDU at the write position extends the octets already matching it; the last part completes it |
| RpkiSession.BuildPrefixPdu | electron/worker/rpkiSession.js:295-441 | the buffer built field by field holds exactly PrefixPdu |
| RpkiSession.BuildEndOfData | electron/worker/rpkiSession.js:443-480 | the buffer built holds exactly EndOfDataPdu, at any version |
| RpkiSession.BuildEndOfDataTimers | electron/worker/rpkiSession.js:444-461 | above version 0, the buffer built field by field holds exactly EndOfDataPdu |
| RpkiSession.TimersParts | electron/worker/rpkiSession.js:446-459 | the 26-octet End of Data is the header, the session id, serial 1 and the three timers, in that order |
| RpkiSession.Frames | electron/worker/rpkiSession.js:90-103 | the buffer is the PDUs taken, in order, followed by the rest; each PDU taken is its own declared length, at least 1; the rest holds no complete PDU |
| RpkiSession.TakeFrame | electron/worker/rpkiSession.js:100-101 | a PDU cut off the front followed by the loop's result on the rest gives back the buffer |
| RpkiSession.ConsFramed | electron/worker/rpkiSession.js:100-101 | a PDU taken in front of PDUs taken are all PDUs taken |
| RpkiSession.FramedPrefix | electron/worker/rpkiSession.js:100-101 | with a complete PDU at the front, the cut is exactly that PDU and the rest |
| RpkiSession.FramesHead | electron/worker/rpkiSession.js:91-103 | with a complete PDU at the front, the loop takes it and continues on the rest |
| RpkiSession.HeadOfAppend | electron/worker/rpkiSession.js:78 | more data after a complete PDU does not change the PDU at the front |
| RpkiSession.FramesAppend | electron/worker/rpkiSession.js:77-103 | on x + y, the loop takes the PDUs of x, then the PDUs of x's rest followed by y |
| RpkiSession.FramesOfStream | electron/worker/rpkiSession.js:90-103 | a stream of framed PDUs is split back into exactly those PDUs, with nothing left |
| RpkiSession.ChunksCompose | electron/worker/rpkiSession.js:77-103 | receiving data in two chunks answers the same PDUs, in the same order, and leaves the same octets waiting as receiving it at once |
| RpkiSession.FramesStepAsWritten | electron/worker/rpkiSession.js:91-101 | one turn of the loop as written: the PDU cut off and the rest make up the buffer |
| RpkiSession.ZeroLengthSpins | electron/worker/rpkiSession.js:91-102 | as written, a header declaring length 0 cuts off an empty PDU and keeps the buffer unchanged, so the loop never ends; the corrected loop leaves that buffer waiting |
| RpkiSession.SessionIdAfter | electron/worker/rpkiSession.js:286-288 | a session id other than 0 is kept; a missing id or 0 is replaced by the random draw |
| RpkiSession.AnswerAllAppend | electron/worker/rpkiSession.js:90-103 | answering a + b is answering a, then b |
| RpkiSession.ResetQueryAnswer | electron/worker/rpkiSession.js:118-128 | a Reset Query records its version; at version 0 it sends a Cache Response with the session id, one Prefix PDU per ROA and End of Data, and otherwise a single Unsupported Protocol Version error |
| RpkiSession.ShortPieceAnswered | electron/worker/rpkiSession.js:33-102 | a declared length from 1 to 7 cuts off a piece too short for a header, which is answered with an Internal Error report |
| RpkiSession.ErrorTypeAnswer | electron/worker/rpkiSession.js:64-252 | a PDU of the ERROR type is only logged once its code can be read; shorter, it is answered with an Internal Error report |
| RpkiSession.ClosedSendsNothing | electron/worker/rpkiSession.js:254-258 | a session without a socket sends nothing, whatever it receives |
| RpkiSession.SendFramed | electron/worker/rpkiSession.js:254-266 | sending framed PDUs keeps everything sent framed |
| RpkiSession.AnswerFramed | electron/worker/rpkiSession.js:30-75 | every PDU sent in answer to a PDU is framed |
| RpkiSession.AnswerAllFramed | electron/worker/rpkiSession.js:90-103 | every PDU the session sends, over any run of received PDUs, is framed |
| RpkiSession.Session.constructor | electron/worker/rpkiSession.js:8-19 | a new session is at version 0 with no session id, no socket, nothing sent and an empty buffer |
| RpkiSession.Session.Attach | electron/worker/rpkiWorker.js:129 | attaching the socket changes nothing else |
| RpkiSession.Session.CloseSession | electron/worker/rpkiSession.js:106-115 | closing drops the socket and changes nothing else |
| RpkiSession.Session.SendMessage | electron/worker/rpkiSession.js:254-266 | the socket is given the octets only when it is there |
| RpkiSession.Session.SendHeaderPdu | electron/worker/rpkiSession.js:268-492 | sends the 8-octet PDU of the given type and field at the session's version |
| RpkiSession.Session.SendResetQuery | electron/worker/rpkiSession.js:268-279 | sends a Reset Query at the session's version |
| RpkiSession.Session.SendCacheReset | electron/worker/rpkiSession.js:482-492 | sends a Cache Reset at the session's version |
| RpkiSession.Session.SendCacheResponse | electron/worker/rpkiSession.js:281-293 | draws a session id when there is none (or it is 0) and sends a Cache Response carrying it |
| RpkiSession.Session.SendEndOfData | electron/worker/rpkiSession.js:443-480 | sends End of Data at the session's version with its session id (0 when there is none) |
| RpkiSession.Session.SendError | electron/worker/rpkiSession.js:494-507 | sends an error report with the given code |
| RpkiSession.Session.SendPrefix | electron/worker/rpkiSession.js:295-441 | sends the Prefix PDU of the ROA with the given flags |
| RpkiSession.Session.SendRoas | electron/worker/rpkiSession.js:509-521 | sends one Prefix PDU per ROA, in order |
| RpkiSession.Session.HandleResetQuery | electron/worker/rpkiSession.js:118-128 | the new state is ResetQuery of the old one at the query's version |
| RpkiSession.Session.ProcessMessage | electron/worker/rpkiSession.js:30-75 | the new state is Answer of the old one |
| RpkiSession.Session.RecvMsg | electron/worker/rpkiSession.js:77-103 | the PDUs the loop takes are answered in order and the rest is kept |

## Left out

- TcpAoJson.Atoi: the digits are read into an unbounded integer. The C parser stores `atoi` into an `int`, so a value beyond the signed 32-bit range is undefined behaviour there. glibc keeps the low 32 bits, which can turn a large `sendStart` into a negative number that the helper then treats as no bound.
- TcpAoJson.IntValue: unbounded for the same reason as Atoi; the int-to-`time_t` copy in scripts/tcp-ao-json-parser.c therefore never sees a wrapped value in the model.
- FtpSession.Upper: upper-cases ASCII letters only. JavaScript's `toUpperCase` maps all of Unicode, so a command such as "ſyst" is SYST to the program but unknown (502) here.
- CommonUtils.HexStringToBuffer: the odd-length test counts characters. JavaScript's `length` counts UTF-16 code units, so an input holding a character outside the Basic Multilingual Plane can be padded differently by the program.
- FtpSession.Session.RecvMsg: the input is a sequence of characters, and the UTF-8 decoding of the octet stream is not modelled. The program joins the kept octets with each chunk and decodes the whole buffer. It rebuilds the kept octets from the decoded last piece only when a CR LF arrived. So a multi-byte character split across chunks becomes U+FFFD only when the chunk that carries its first octets also completes a line.
- FtpSession.RecvChunks: "how the stream is chunked does not matter" holds for characters. On octets the program breaks it in exactly the case named under RecvMsg.
- FtpSession.ListeningSpec: the PASV reply is built from the address fields as text. The `.map(Number)` conversion is not modelled, so a field such as "010" is written as is rather than as "10", and a non-numeric field is not turned into NaN. The 425 reply for a failed listener is not modelled; the listening port is a parameter.
- FtpSession.PasvNumbers: the same `.map(Number)` omission as ListeningSpec.
- FtpSession.PortValue: `parseInt` is modelled on its leading decimal digits; a field without digits (NaN in JavaScript) is a distinct tag rather than a number.
- FtpSession.AttachSpec: the greeting is the IPv4 server's text, with two spaces after 220 (electron/worker/ftpWorker.js:106). The IPv6 server sends it with one space (electron/worker/ftpWorker.js:210) and is not modelled.
- FtpSession.Session: no file system and no data connection. LIST, RETR, STOR, DELE, RMD and MKD are modelled as the requests they make, not their effects. Events and logging are also left out.
- BgpSimulatorWorker.Worker.SendRoute: the IPv4 request only. The IPv6 branch (electron/worker/bgpSimulatorWorker.js:755-766) is not modelled.
- BgpSimulatorWorker.Worker.WithdrawRoute: the IPv4 request only. The IPv6 branch (electron/worker/bgpSimulatorWorker.js:810-821) is not modelled.
- BgpSimulatorWorker.Worker: the socket and the TCP server are the fields they set. The OPEN message is a parameter rather than being built from the configuration. processCustomPkt (electron/worker/bgpSimulatorWorker.js:175-183) is not modelled: the custom attributes arrive as the octets it would decode from their hex text, so its callers' error paths (electron/worker/bgpSimulatorWorker.js:239-244, 560-566) are not modelled either. Logging and the events sent to the window are left out.
- BgpWorkerMessages.PathAttributeReadBack: holds for attributes whose flags carry Extended Length exactly when the value is longer than 255 octets, which is how the caller builds them.
- BGP constants (message types, header and marker lengths, attribute codes) are written out as RFC 4271 gives them; the capability codes follow RFC 5492, RFC 4760, RFC 6793 and RFC 9234.
- BgpPacketParser: the name lookups and getBgpPacketSummary (electron/utils/bgpPacketParser.js:90-110, 607-860 onwards) only produce display text. MP_REACH_NLRI and MP_UNREACH_NLRI are read as far as the AFI and SAFI. IPv6 address and prefix formatting (electron/utils/bgpPacketParser.js:577-606) is not modelled.
- Asn1.IntegerValue: the subtraction for a negative value is exact. The program computes `value - Math.pow(2, length * 8)` in double precision, so from 7 content octets on the result is rounded (02 07 80 00 00 00 00 00 01 gives -72057594037927936 there, -72057594037927935 here), and from 128 content octets on `Math.pow` overflows and the program returns -Infinity where the model returns an integer.
- Asn1.IntegerAt: the same exact subtraction as Asn1.IntegerValue.
- Asn1.OctetStringAt: the octets are returned as is; the UTF-8 `toString` is not modelled.
- Asn1.ValueAt: Opaque values are octets, not hex text, and IpAddress and OID values are given as numbers rather than their dotted text forms.
- Asn1.OidAt: the arcs as numbers; the `join('.')` text is not modelled.
- Asn1: parseSequence, parsePdu, parseTimeTicks and hasMoreData (electron/utils/asn1Parser.js:16, 120, 181, 386) are not modelled.
- ParserRegistry.ParsePacket: a depth bound stands in for the JavaScript call stack, which has no explicit limit in the program; TooDeep is what the model answers where the program would exhaust its stack. The tree nodes a parser builds for display are left out.
- ParserRegistry.Parse: the same depth bound as ParsePacket.
- ArpPacketParser.ParseArpPacket: the payload node's `type` and `nextLayer` fields are not kept; the parser always sets them to null.
- BmpTlvParser: parseBgpMessageTlv and parseVrfTableNameTlv (electron/utils/bmpTlvParser.js:137-148) return the value octets and their UTF-8 text and are not modelled.
- IpUtils: ipv6BufferToString, getIpType and ipToBytes (electron/utils/ipUtils.js:88, 146, 171) and the IPv6 branch of genRouteIps are not modelled.
- KeychainManager: reading and writing the keychain store (loadKeychains) and resolvePassword are I/O and are not modelled. The export gives the record each key becomes, with an unparsable date as None (JSON's null), not the JSON text.
- RpkiSession: the ERROR message type has no value in the files modelled here, so it is the session's `errorType`, fixed when the session is made. The other message types and error codes are written out as RFC 6810 gives them.
- RpkiSession.Session: the ROA store behind the handlers that update it, and the notify* events to the window, are left out. The random session id is a parameter. Session.RecvMsg uses that one value for every Reset Query in a chunk. sendCacheResponse (electron/worker/rpkiSession.js:286-288) draws again on each call while the id is still 0, so the two differ only when a draw is 0. Socket write errors are not modelled.
- TcpAo: every clock reading is a parameter: the one check_and_rotate_keys makes for the tick, and the one add_single_key makes for each key it adds. `setsockopt` is an oracle the caller supplies. The SO_REUSEADDR option the proxy sets on its listening socket before bind (scripts/tcp-ao-helper.c:460) is not modelled. The proxy loop, data forwarding and `main`'s I/O are not modelled, and neither is the unused find_bool_value.

## Findings

| source | as written | input that shows it | evidently intended | confidence | as-written member | corrected member |
|---|---|---|---|---|---|---|
| electron/utils/asn1Parser.js:48-50 | with 4 content octets and the sign bit set, the 32-bit fold is already negative and subtracting 2^32 takes it 2^32 too low | 02 04 FF FF FF FF decodes to -4294967297 | the two's-complement value -1 | not executed | Asn1.IntegerValueFourNegative | Asn1.TwosComplement |
| electron/utils/asn1Parser.js:93-112 | a first OID octet of 120 or more is split by 40 on both arcs | first octet 120 gives arcs 3.0 | arcs 2.40, as section 8.19.4 of ITU-T X.690 gives | not executed | Asn1.FirstArcsAbove119 | Asn1.FirstArcsX690 |
| electron/worker/bgpSimulatorWorker.js:121-171 | a header whose length field is 0 drops nothing, so the loop repeats on the same bytes | 16 octets 0xFF, then 00 00 04 | the framing loop consumes or stops on every turn | not executed | BgpSimulatorWorker.ZeroLengthStalls | BgpSimulatorWorker.DrainConsumesFrames |
| electron/worker/bgpSimulatorWorker.js:744-754 | when an UPDATE cannot hold one route the builder still returns a message and the same index, so the loop writes it again forever | a customAttr of 4050 octets with one route | stop once a message announces nothing | not executed | BgpSimulatorWorker.SendRouteStalls | BgpSimulatorWorker.Worker.SendRoute |
| electron/worker/rpkiSession.js:91-103 | a PDU whose length field is 0 is cut as 0 octets, so the loop repeats on the same bytes | a header 01 00 00 00 00 00 00 00 | the framing loop consumes or stops on every turn | not executed | RpkiSession.ZeroLengthSpins | RpkiSession.Frames |
| electron/worker/ftpSession.js:331-357 | an absolute CWD argument is taken verbatim and joined under rootDir without normalising | CWD /.. | the working directory never leaves rootDir | not executed | FtpSession.CwdEscapesRoot | FtpSession.CwdStaysInRoot |
