# batv-tools core in Dafny

batv-tools implements Bounce Address Tag Validation (BATV) with the `prvs`
tag scheme. A mail sender's envelope address `user@example.org` is rewritten to
`user+prvs=KDDDSSSSSS@example.org`, where:

- `K` is the key number (always 0);
- `DDD` is the expiry day, counted in days modulo 1000;
- `SSSSSS` is the first three bytes, in hex, of HMAC-SHA1 over `K DDD <original address>` under the sender's key.

A bounce that comes back to such an address can then be told apart from backscatter.

This project models the core of the repository, with contracts and proofs:

- **Crypto.** The repository's own SHA-1 (`Sha1_state`, `Block_hash`) and `Hmac<Sha1>`. They are proved to compute FIPS 180-4 SHA-1 and RFC 2104 HMAC (section 2 of RFC 2104).
- **Address grammar.** The BATV address grammar of `address.cpp`: parse, `canon_address`, `split_address`.
- **prvs tags.** Tag generation and validation (`prvs.cpp`), including the day ring modulo 1000 and the 32-bit arithmetic.
- **Key lookup.** Exact address first, then the `@domain` entry (`key.cpp`, `Config::get_key`).
- **Verification.** The four-way classification of a recipient (`verify.cpp`).
- **Configuration.** Defaults, the `Config::set` directives, CIDR parsing, the internal-host test and `validate` (`config.cpp`, `config.hpp`, `config-milter.hpp`).
- **The three front ends.**
  - The milter's callbacks (`batv-milter.cpp`), as pure functions over a per-connection context. Each produces the list of milter library calls it makes.
  - The header-rewriting filter (`batv-filter.cpp`).
  - The validator (`batv-validate.cpp`): its filter mode and its exit-status loop.

Streams are modelled as sequences of lines. The current day is a parameter.

Modules, one per source unit:

- `Wrappers`, `Ascii`: the C library helpers.
- `Util`, `Sha1`, `BlockHash`, `Sha1Hash`, `Hmac`, `HmacSha1`: the crypto.
- `Address`, `Prvs`, `Keys`, `Cidr`, `Config`, `Verify`: addresses, tags, keys, configuration and verification.
- `MessageHeaders`: the header reader the two filters share.
- `BatvFilter`, `BatvValidate`, `Milter`: the front ends.

## Model

| member | source | states |
|---|---|---|
| Util.ToBytes | prvs.cpp:46-48 | copying a string into a byte vector keeps its length and maps each character to its byte |
| Util.CharByte | prvs.cpp:46-48 | the byte one character of a `std::string` stands for; ToBytes carries it over a whole string |
| Util.Zeros | hmac.hpp:55 | a zero-filled buffer of the requested length |
| Util.FindLastNotOf | util.hpp:28 | the last index of a character outside " \t\r\n", or -1 when all are; everything after it is trailing blank |
| Util.Chomp | util.hpp:28 | the result is a prefix of the input that ends in a non-blank, and only blanks were removed |
| Util.IsTrailingSpace | util.hpp:28 | the four characters `" \t\r\n"` that `chomp` removes; FindLastNotOf and Chomp are stated with it |
| Util.ChompAllBlank | util.hpp:28 | an all-blank string chomps to empty (the npos+1 == 0 case) |
| Util.ChompIdempotent | util.hpp:28 | chomping twice is chomping once |
| Util.ExplicitMemzero | util.cpp:19-26 | the first n bytes become zero and the rest of the buffer is unchanged |
| Util.StoreBe64 | util.cpp:28-38 | the eight bytes written read back big-endian as the value stored; bytes after them are unchanged |
| Util.LoadBe64 | util.cpp:28-38 | the big-endian reading of eight bytes, `p[0]` most significant; StoreBe64 proves it reads back what `store_be64` wrote |
| Ascii.FindFirst | key.cpp:58 | `find`/`strchr`: absent exactly when the character does not occur, else the first occurrence |
| Ascii.FindFirstIs | address.cpp:64 | a position holding the character, with no occurrence before it, is what the search returns |
| Ascii.CStr | address.cpp:53 | the `c_str()` view: the longest NUL-free prefix, the whole string when it has no NUL |
| Ascii.ToLower | batv-milter.cpp:152 | `tolower` in the C locale: exactly 'A'..'Z' become 'a'..'z', every other character is unchanged |
| Ascii.EqualsIgnoreCase | batv-milter.cpp:152 | `strcasecmp(a, b) == 0`: equal lengths and equal characters after ToLower, position by position |
| Ascii.StartsWith | batv-validate.cpp:124 | `strncmp(s, p, strlen(p)) == 0`: `p` is a prefix of `s` |
| Ascii.IsSpace | config.cpp:31 | the six characters `isspace` accepts in the C locale, which `atoi` skips first |
| Ascii.SpanSpace | config.cpp:31 | `atoi`'s whitespace scan: the longest run of spaces at the front, stopping at the first other character |
| Ascii.SpanDigits | config.cpp:31 | `atoi`'s digit scan: the longest run of decimal digits at the front, stopping at the first other character |
| Ascii.DecValue | config.cpp:31 | the value `atoi` accumulates from a run of digits, most significant first; DecValueDecimal proves it reads back every numeral |
| Ascii.Atoi | config.cpp:31 | `atoi` on a string of digits is its decimal value |
| Ascii.AtoiDecimal | config.cpp:31 | `atoi` reads back any decimal numeral, and its negation |
| Ascii.DecValueDecimal | config.cpp:199 | the decimal numeral of n has value n |
| Sha1.ZeroPadLength | sha1.hpp:54-56 | the number of zero bytes after the 0x80 marker is below 64 and brings the length to 56 modulo 64 |
| Sha1.FipsPad | sha1.hpp:49-58 | the padded message extends the input and is a whole number of 64-byte blocks |
| Sha1.HashBlocksAgree | blockhash.hpp:74-82 | two compressors that agree on every block hash every block sequence alike |
| Sha1.SourceFIsFipsF | sha1.cpp:71-75 | the round functions of R1-R4 are FIPS 180-4's Ch, Parity and Maj for every round |
| Sha1.SourceF | sha1.cpp:71-75 | the function argument of R1A/R1B, R2, R3 and R4 by round; SourceFIsFipsF equates it with FIPS 180-4's f |
| Sha1.LoadBe32 | sha1.cpp:53-56 | `LOAD_BE32`: the big-endian word at byte `4k` of the block |
| Sha1.Rol30 | sha1.cpp:58 | `ROL(value, 30)` on a 32-bit word (Rol1 and Rol5 likewise) |
| Sha1.ScheduleWord | sha1.cpp:60-62 | `SRC_BUFFER(i)` below 16, else `SRC_BLOCKS(i)` from the 16-word ring; ScheduleWordIsW equates it with FIPS 180-4's W(t) |
| Sha1.RoundSum | sha1.cpp:64-69 | the new value of `z` in `DO_ROUND`: f + BLK(i) + constant + ROL(v, 5) |
| Sha1.DoRound | sha1.cpp:64-69 | one `DO_ROUND` on the five registers, with register roles rotating by round; DoRoundIsFipsStep equates it with one FIPS step |
| Sha1.Rounds | sha1.cpp:77-128 | rounds i..79 of `transform`, each storing its schedule word in the ring; RoundsAreFipsRounds equates them with the FIPS round loop |
| Sha1.Transform | sha1.cpp:77-128 | `Sha1_state::transform`: the 80 rounds, then the registers added to the state; TransformIsFipsCompress equates it with the FIPS 180-4 compression function |
| Sha1.DoRoundIsFipsStep | sha1.cpp:64-69 | one `DO_ROUND`, read through the rotating register names, is one FIPS 180-4 step |
| Sha1.ScheduleWordIsW | sha1.cpp:60-62 | the 16-word ring `blocks` yields the FIPS message schedule word W(t) |
| Sha1.RoundsAreFipsRounds | sha1.cpp:88-114 | the 80 unrolled rounds compute the FIPS 180-4 round loop |
| Sha1.TransformIsFipsCompress | sha1.cpp:77-128 | `transform` is the FIPS 180-4 compression function, with the feed-forward addition |
| Sha1.Digest | sha1.cpp:130-137 | 20 bytes whose big-endian words are the five state words |
| Sha1.WordBytesRecombine | sha1.cpp:134 | the four bytes written for a word recombine to it |
| Sha1.Write | sha1.cpp:130-137 | a null buffer stays null; otherwise the first min(out_len, 20) bytes are the digest's and the rest are unchanged |
| BlockHash.New | blockhash.hpp:49 | a fresh hasher is valid (count 0, empty buffer) |
| BlockHash.Valid | blockhash.hpp:45-67 | the hasher invariant: the count fits `unsigned long long` and the buffer holds exactly the `count % 64` pending bytes; New, Update and Pad keep it |
| BlockHash.Aligned | blockhash.hpp:61-83 | the block-aligned part of a count: a multiple of 64, within 64 of it |
| BlockHash.Update | blockhash.hpp:58-85 | succeeds exactly when the byte count does not overflow 64 bits, and adds the data length to the count |
| BlockHash.FreshAbsorbs | blockhash.hpp:58-85 | after one update a fresh hasher holds exactly the data (hashed blocks and buffered tail) |
| BlockHash.UpdateAbsorbs | blockhash.hpp:58-85 | an update appends its data to what the hasher has absorbed, whatever the split into blocks |
| BlockHash.CrossingAbsorbs | blockhash.hpp:69-83 | the case that completes the buffered block and hashes whole blocks keeps the absorbed message |
| BlockHash.AbsorbedUnique | blockhash.hpp:43-46 | the hasher state is determined by the message absorbed |
| BlockHash.UpdateConcat | blockhash.hpp:58-85 | two updates are one update with the concatenation |
| BlockHash.HashBlocksAppend | blockhash.hpp:78-82 | hashing a concatenation of whole blocks is hashing the second part from the state after the first |
| BlockHash.PadZeros | sha1.hpp:54-56 | the zero-fill loop ends with the count at 56 modulo 64 |
| BlockHash.Pad | sha1.hpp:49-58 | after padding the count is a whole number of blocks |
| BlockHash.PadAbsorbs | sha1.hpp:49-58 | padding a hasher holding m leaves it holding the FIPS 180-4 padding of m |
| BlockHash.PadTailAbsorbs | sha1.hpp:53-57 | the zero-fill and the length field together complete the FIPS padding |
| BlockHash.Finish | blockhash.hpp:87-91 | a null output stays null; a buffer keeps its length |
| BlockHash.Compute | blockhash.hpp:93-98 | a null output stays null; a buffer keeps its length |
| BlockHash.HashOf | blockhash.hpp:100-103 | the 20-byte digest of a message |
| BlockHash.FinishHashesPadded | blockhash.hpp:87-91 | `finish` writes the digest of the padded message absorbed so far |
| BlockHash.ComputeHashesPadded | blockhash.hpp:93-98 | `compute` writes the block hash of the padded data |
| BlockHash.WriteWholeDigest | sha1.cpp:130-137 | writing into a 20-byte buffer yields the whole digest |
| Sha1Hash.Sha1TransformIsFipsBlock | sha1.cpp:77-128 | `Sha1_state::transform` equals the FIPS 180-4 block function on every state and block |
| Sha1Hash.Sha1Transform | sha1.cpp:77-128 | `Sha1_state::transform` on a 64-byte block, with the uninitialised ring as any value; Sha1TransformIsFipsBlock equates it with FIPS 180-4 |
| Sha1Hash.Sha1Compute | sha1.hpp:64 | `crypto::Sha1::compute`, `Block_hash` over the source transform; Sha1ComputeIsFips states what it writes |
| Sha1Hash.Sha1ComputeIsFips | blockhash.hpp:93-98 | `Sha1::compute` writes the FIPS 180-4 hash of the padded data |
| Sha1Hash.Sha1Digest | blockhash.hpp:100-103 | into a 20-byte buffer, `Sha1::compute` writes the FIPS 180-4 SHA-1 digest |
| Sha1Hash.HashOfSha1IsFips | sha1.cpp:37-44 | the digest built on the source's transform and initial state is FIPS SHA-1 |
| Hmac.XorBytes | hmac.hpp:57-59 | xoring with a pad keeps the length |
| Hmac.RfcKey | hmac.hpp:46-52 | the RFC 2104 key: hashed when longer than a block, so at most a block long |
| Hmac.Rfc2104 | hmac.hpp:94-99 | the RFC 2104 MAC is a full digest long |
| Hmac.KeyPad | hmac.hpp:54-59 | a block whose key bytes are xored with the pad and whose remaining bytes are the pad |
| Hmac.HmacValid | hmac.hpp:36-52 | the object invariant: the inner hasher is valid and the stored key fits one block |
| Hmac.FillPad | hmac.hpp:54-59 | the memset/memcpy/xor loop builds the padded key block |
| Hmac.CopyKey | hmac.hpp:55-56 | memset then memcpy: the key followed by zeros, one block long |
| Hmac.XorEach | hmac.hpp:57-59 | the xor loop xors every byte with the pad |
| Hmac.KeyOf | hmac.hpp:46-52 | a short key is kept as is; a long key is replaced by its 20-byte hash |
| Hmac.New | hmac.hpp:44-63 | construction succeeds exactly when the key can be hashed, and stores the RFC key |
| Hmac.HmacUpdate | hmac.hpp:69-72 | succeeds exactly when the inner hash accepts the data; the key is unchanged |
| Hmac.HmacFinish | hmac.hpp:74-92 | a null output stays null |
| Hmac.HmacCompute | hmac.hpp:94-99 | a null output stays null |
| Hmac.KeyOfIsRfcKey | hmac.hpp:46-52 | the stored key is RFC 2104's K |
| Hmac.NewAbsorbsInnerPad | hmac.hpp:54-61 | the constructor leaves the inner hash holding K xor ipad |
| Hmac.UpdateAfterPad | hmac.hpp:69-72 | data passed to `update` follows the inner pad in the inner hash |
| Hmac.HmacUpdateAbsorbs | hmac.hpp:69-72 | successive updates append to the inner hash's message |
| Hmac.ComputeAbsorbs | hmac.hpp:94-97 | after construction and update, the inner hash holds K xor ipad followed by the text |
| Hmac.OuterDigestIsRfc | hmac.hpp:79-89 | the outer hash over K xor opad and the inner digest is RFC 2104's H(K xor opad, H(K xor ipad, text)) |
| Hmac.HmacFinishIsRfc | hmac.hpp:74-92 | `finish` writes the RFC 2104 MAC of the text absorbed |
| Hmac.HmacComputeIsRfc2104 | hmac.hpp:94-99 | `Hmac::compute` writes the first min(out_len, 20) bytes of the RFC 2104 MAC and leaves the rest |
| HmacSha1.Mac | prvs.cpp:50-54 | HMAC-SHA1 is 20 bytes long |
| HmacSha1.Sha1HmacCompute | hmac.hpp:94-99 | a null output stays null |
| HmacSha1.Rfc2104OverSha1 | sha1.cpp:77-128 | RFC 2104 over the source's SHA-1 is RFC 2104 over FIPS SHA-1 |
| HmacSha1.Sha1HmacIsMac | hmac.hpp:94-99 | `Hmac<Sha1>::compute` writes a prefix of HMAC-SHA1 and leaves the rest of the buffer |
| Address.SpanLoc | address.cpp:9-13 | the loc-core scan stops at the first '+', '@' or NUL |
| Address.SpanTag | address.cpp:21-24 | the tag scan takes the longest run of letters, digits and '-' |
| Address.IsLocChar | address.cpp:11 | the characters the loc-core loop steps over: anything but '+', '@' and NUL |
| Address.IsTagChar | address.cpp:22 | the characters the tag loops step over: `isdigit`, `isalpha` or '-' |
| Address.WellFormed | address.cpp:7-46 | the addresses `parse` can produce: loc-core characters, tag characters and a NUL-free domain; ParseText and ParseAcceptsGrammar state parse in its terms |
| Address.Format | batv-milter.cpp:220 | `Batv_address::make_string`: loc-core, '+', tag type, '=', tag value, '@', domain; ParseFormat proves parse reads it back |
| Address.ParseText | address.cpp:7-46 | an accepted address is well formed and writes back to the input text |
| Address.Parse | address.cpp:7-46 | an accepted address is well formed and writes back to the C string read |
| Address.NoNulFormat | address.cpp:7-46 | a well-formed address writes out without NUL |
| Address.ParseFormat | address.cpp:7-46 | every well-formed address is accepted back as itself (round trip) |
| Address.SpanLocOf | address.cpp:9-13 | the loc-core scan stops exactly at the '+' after a valid loc-core |
| Address.SpanTagOf | address.cpp:21-35 | the tag scan stops exactly at the first non-tag character |
| Address.ParseAcceptsGrammar | address.cpp:7-46 | parsing accepts every input whose C string is in the grammar, and gives its one reading |
| Address.OrigMailfrom | address.hpp:9 | the original sender is the loc-core at the domain |
| Address.Depth | address.cpp:54-57 | the number of bracket pairs stripped: that many '<' in front and '>' behind, and no further pair |
| Address.CanonAddress | address.cpp:49-59 | the C string with matching outer bracket pairs removed; no pair is left |
| Address.CanonIdempotent | address.cpp:49-59 | canonicalising twice is canonicalising once |
| Address.SplitAddress | address.cpp:61-71 | the local part has no '@'; with an '@', local part, '@' and domain give back the string; without one, the whole string is the local part |
| Address.MakeString | verify.cpp:47-50 | `Email_address::make_string`: the local part, then '@' and the domain when there is one; SplitMakeString proves SplitAddress reads it back |
| Address.SplitMakeString | address.cpp:61-71 | splitting `local@domain` gives back the address (round trip) |
| Address.FirstAtUnique | address.cpp:64-66 | a string splits at its first '@' in only one way |
| Address.SplitFormat | address.cpp:61-71 | a written BATV address splits into its tagged local part and its domain |
| Prvs.HexValue | prvs.cpp:32 | a hex digit's value is below 16 |
| Prvs.HexDigit | prvs.cpp:84-86 | the lowercase hex digit written for n reads back as n |
| Prvs.Hex2 | prvs.cpp:84-86 | `%02x`: two lowercase hex digits that read back as the byte |
| Prvs.Dec3 | prvs.cpp:70 | `%03u`: three decimal digits that read back as the day |
| Prvs.DecodeTag | prvs.cpp:32 | the tag value decodes exactly when it is four digits then six hex digits, giving three claimed bytes |
| Prvs.HashSource | prvs.cpp:46-48 | `hash_source`: the first four characters of the tag value then the sender, four bytes longer than the sender |
| Prvs.ExpectedMac | prvs.cpp:50-56 | the three bytes a tag value must carry: the start of HMAC-SHA1 over its hash source |
| Prvs.SameThreeBytes | prvs.cpp:56-58 | the or-of-xors is zero exactly when the claimed bytes equal the first three MAC bytes |
| Prvs.DaysLeft | prvs.cpp:40 | the days forward from today to the expiry day around the 1000-day ring |
| Prvs.Validate | prvs.cpp:20-59 | accepts exactly a 10-character value with key number 0, expiry within the lifetime, and the first three bytes of HMAC-SHA1 over `K DDD <orig>` |
| Prvs.ExpiryNoWrap | prvs.cpp:70 | for a lifetime below 1000 the unsigned sum does not wrap |
| Prvs.GenerateTag | prvs.cpp:63-86 | a 10-character value starting with key number '0' |
| Prvs.ExpiryDay | prvs.cpp:70 | `(today() + lifetime) % 1000` with the sum wrapping as `unsigned int`; ExpiryNoWrap shows it is `(today + lifetime) % 1000` below 1000 days |
| Prvs.Ring | prvs.cpp:40 | a day count reduced onto the 1000-day ring, as `today()` and the expiry are |
| Prvs.Generate | prvs.cpp:61-91 | `prvs=`, the tag value, `=`, then the original sender |
| Prvs.DecodeGenerated | prvs.cpp:61-91 | a generated value decodes to key 0, the expiry day and the expected MAC bytes |
| Prvs.GenerateTagChars | prvs.cpp:67-86 | a generated value consists of decimal and lowercase hex digits only |
| Prvs.GenerateAddress | prvs.hpp:9 | the generated BATV address has tag type prvs, the sender as original sender, and a 10-character tag |
| Prvs.ValidateAcceptsGenerated | prvs.cpp:20-91 | validate accepts what generate produced on the same day (sign/verify round trip) |
| Prvs.ValidateAcceptsWithinLifetime | prvs.cpp:20-91 | validate accepts a generated value on every later day of its lifetime |
| Prvs.ValidateRejectsForgery | prvs.cpp:56-58 | a value whose claimed bytes differ from the MAC is rejected, whatever its day |
| Prvs.RingBack | prvs.cpp:40 | n days ahead on the ring reads back as n days left |
| Prvs.DaysLeftLater | prvs.cpp:40 | k days later, an expiry n days out has n - k days left |
| Prvs.ValidateRejectsAfterLifetime | prvs.cpp:20-91 | validate refuses a generated value on each day after its lifetime, up to day 999 |
| Prvs.DaysLeftAfterExpiry | prvs.cpp:40 | k days later, an expiry n < k days out is 1000 + n - k days ahead on the ring |
| Prvs.AcceptedExpiresWithinLifetime | prvs.cpp:39-42 | an accepted value expires at most `lifetime` days after today |
| Keys.DomainKey | key.cpp:58-60 | the `@domain` suffix from the first '@', absent exactly when there is no '@' |
| Keys.NonEmpty | key.cpp:54 | an empty key counts as no key |
| Keys.GetKey | key.cpp:47-67 | an exact entry decides (empty means none); without one and without '@' there is no key; a key found is non-empty and stored in the map |
| Keys.DomainFallback | key.cpp:57-64 | without an exact entry, the `@domain` entry decides under the same empty-means-none rule |
| Keys.ExactEntryShadows | key.cpp:51-55 | an exact entry is unaffected by entries under other names |
| Keys.FoundUnderAddressOrDomain | key.cpp:47-67 | a key is found only under the address itself or under its `@domain` suffix |
| Cidr.MakeIpv4Mapped | config.cpp:13-22 | ten zero bytes, 0xFF 0xFF, then the four IPv4 bytes |
| Cidr.ValidCidr | config.cpp:61-63 | the prefix lengths `parse_cidr_string` lets through: at most 128 |
| Cidr.Mask | config.cpp:141 | `uint8_t last_byte_mask = 255 << (8 - r)`: the top r bits of a byte; MaskBits states what it selects |
| Cidr.PrefixMatches | config.cpp:140-145 | one entry's test: memcmp of the whole bytes, then the masked xor of the partial byte unless all 16 were compared; PrefixMatchesIsBitPrefix proves it is bit-prefix equality |
| Cidr.MappedInjective | config.cpp:13-22 | distinct IPv4 addresses map to distinct IPv6 addresses |
| Cidr.MappedShare88Bits | config.cpp:13-22 | any two mapped IPv4 addresses agree on their first 88 bits |
| Cidr.MaskBits | config.cpp:141-145 | the masked xor of two bytes is zero exactly when their first r bits agree |
| Cidr.BitsAgreeAll | config.cpp:141 | the recursive bit comparison is agreement bit by bit |
| Cidr.BytesAreBits | config.cpp:143 | equal first k bytes are equal first 8k bits |
| Cidr.PartialByteBits | config.cpp:140-145 | a prefix of 8k + r bits is the first k bytes plus r bits of the next |
| Cidr.PrefixMatchesIsBitPrefix | config.cpp:136-152 | the memcmp-and-mask test is "the first prefix-length bits agree" |
| Cidr.MappedBits | config.cpp:13-22 | bit 96 + i of a mapped address is bit i of the IPv4 address |
| Cidr.MappedHead | config.cpp:13-22 | mapped addresses agree on their first 96 bits |
| Cidr.MappedPrefix | config.cpp:131-152 | a mapped address matches a mapped network with prefix 96 + n exactly when the IPv4 addresses agree on n bits |
| Config.DefaultSenderConfig | config.hpp:35-43 | not a daemon, debug 0, sign and verify, lifetime 7, no delimiter |
| Config.DefaultConfig | config-milter.hpp:71-79 | not a daemon, debug 0, socket mode -1, sign and verify, tempfail on internal errors, no hosts or keys |
| Config.ValidConfig | config.cpp:203-204 | every internal-host entry has a prefix `parse_cidr_string` allows; Set and every directive keep it |
| Config.SplitPrefix | config.cpp:27-34 | without '/' the prefix length is -1; otherwise the address is the text before the first '/' and the length is `atoi` of the rest |
| Config.SplitWithPrefix | config.cpp:29-31 | `addr/n` splits back into addr and n |
| Config.CheckPrefix | config.cpp:61-65 | succeeds exactly for a prefix length between 0 and 128 |
| Config.ParseCidr | config.cpp:24-66 | an accepted CIDR has a prefix length in range (as written) |
| Config.ParseCidrIpv4 | config.cpp:45-63 | as written: an IPv4 `addr/n` with n not -1 is accepted exactly for -96 <= n <= 32, as the mapped address with prefix 96 + n |
| Config.NegativeIpv4PrefixCoversAll | config.cpp:54-63 | as written: `addr/-8` is accepted and matches every IPv4 client |
| Config.ParseCidrNoPrefix | config.cpp:36-59 | without a prefix an address is a /128, IPv4 ones mapped |
| Config.ParseCidrChecked | config.cpp:24-66 | corrected: an accepted CIDR has a prefix length in range |
| Config.ParseCidrCheckedIpv4 | config.cpp:45-63 | corrected: an IPv4 `addr/n` is accepted exactly for 0 <= n <= 32, as the mapped address with prefix 96 + n |
| Config.ParseCidrCheckedIpv6 | config.cpp:36-44 | an IPv6 `addr/n` is accepted exactly for 0 <= n <= 128 |
| Config.AnyMatch | config.cpp:138-151 | true exactly when some listed network matches |
| Config.IsInternalHost | config.cpp:136-152 | an IPv6 client is internal exactly when some internal network matches it |
| Config.IsInternalHost4 | config.cpp:131-134 | an IPv4 client is internal exactly when some network matches its mapped address |
| Config.InternalHostIsBitPrefix | config.cpp:136-152 | internal means sharing the first prefix-length bits with some internal network |
| Config.InternalHost4Entry | config.cpp:131-152 | with one IPv4 network a.b.c.d/n, a client is internal exactly when it agrees with it on n bits |
| Config.GetKey | config.cpp:109-129 | the milter's lookup: exact entry first (empty means none), no key without an entry or '@', found keys non-empty |
| Config.OctalValue | config.cpp:184 | an octal digit's value is below 8 |
| Config.SetSocketMode | config.cpp:177-184 | accepts exactly three octal digits, sets only the socket mode, to a value below 512 |
| Config.IsOctalDigit | config.cpp:177-184 | the characters '0'..'7' `socket-mode` accepts |
| Config.SetMode | config.cpp:185-197 | accepts exactly sign, verify or both; sign disables verify and vice versa |
| Config.SetLifetime | config.cpp:198-202 | accepts exactly when `atoi` gives 1 to 999, and sets only the lifetime, to that value |
| Config.SetDaemon | config.cpp:156-163 | accepts exactly the eight boolean words; the first four set daemon mode |
| Config.SetOnInternalError | config.cpp:216-225 | accepts exactly tempfail, accept or reject, and sets only that field |
| Config.SetDelimiter | config.cpp:205-209 | accepts exactly one character, which becomes the delimiter |
| Config.AddInternalHost | config.cpp:203-204 | as written: appends the network `parse_cidr_string` gives exactly when it parses, else fails; the config stays valid |
| Config.AddInternalHostChecked | config.cpp:203-204 | corrected: appends the network exactly when the range-checked parse accepts the CIDR |
| Config.SetNegativeInternalHost | config.cpp:54-63 | as written: the directive `internal-host addr/-8` appends a prefix-88 network; the corrected directive refuses it |
| Config.Set | config.cpp:154-229 | an unknown directive fails; an update keeps the config valid and the keys; only `config` and `key-map` read files |
| Config.OctalTextReadsBack | config.cpp:184 | the shifted-or of three octal digits gives back the mode they spell |
| Config.SetSocketModeOctal | config.cpp:177-184 | `socket-mode` with the octal text of m sets the mode to m |
| Config.Validate | config.cpp:255-263 | valid exactly when a socket and some key are given; a missing socket is reported first |
| Config.DefaultNeedsSocketAndKeys | config.cpp:255-263 | the defaults fail validation; adding a socket and keys makes them pass |
| Verify.LifetimeNoWrap | config.cpp:198-202 | a lifetime `set` accepts reads the same as an unsigned int |
| Verify.Lifetime | verify.cpp:65 | `address_lifetime` read as the `unsigned int` `prvs_validate` takes; LifetimeNoWrap shows a lifetime `set` accepts is unchanged |
| Verify.PrvsAddress | verify.cpp:45 | the recipient as a BATV address with tag type `prvs`, if it parses as one; TaggedAddressParses and GeneratedAddressParses state when it does |
| Verify.ValidateAddress | verify.cpp:65-70 | the `prvs_validate(batv_rcpt, lifetime, key)` overload: the tag value checked against the original sender's text; TaggedKeyedRecipient ties Verify to it |
| Verify.Verify | verify.cpp:39-71 | the true recipient is the original sender of a prvs recipient, else the recipient; no key gives none, no tag gives missing |
| Verify.VerifySuccessMeans | verify.cpp:65-70 | a valid recipient has key number 0, expiry within the lifetime and the right MAC for the true recipient |
| Verify.UntaggedRecipient | verify.cpp:48-63 | a recipient without a prvs tag is classed as missing or none by its own key |
| Verify.TaggedKeyedRecipient | verify.cpp:60-70 | a keyed prvs recipient is valid exactly when its tag validates, otherwise badly signed |
| Verify.GeneratedAddressParses | verify.cpp:45-47 | the address the signer writes is read back as the same BATV address |
| Verify.TaggedAddressParses | verify.cpp:45-47 | any well-formed prvs address with a domain is recognised as itself |
| Verify.SignedAddressVerifies | verify.cpp:39-71 | a sender address signed with its own key verifies on every day of its lifetime, with the sender as true recipient |
| MessageHeaders.ContinuationCount | batv-filter.cpp:66-70 | the run of continuation lines that follows a header line |
| MessageHeaders.IsStatusHeader | batv-filter.cpp:98 | `strcasecmp(name, "X-Batv-Status") == 0` on the C string of the name |
| MessageHeaders.NamesRecipient | batv-validate.cpp:136 | `strcasecmp(name, rcpt_header) == 0` on the C strings of both |
| MessageHeaders.IsFromLine | batv-validate.cpp:124 | `strncmp(line, "From ", 5) == 0`: the line that opens an mbox message |
| MessageHeaders.Unfold | batv-validate.cpp:101-105 | each continuation line appended to the value after a line feed; ParseHeaderText shows no text is lost |
| MessageHeaders.HeaderText | batv-filter.cpp:137 | a header written back unchanged: name, ':', value |
| MessageHeaders.ParseHeader | batv-validate.cpp:86-106 | fails exactly on a stray continuation or a missing colon; the name has no colon and the header's text is its lines joined |
| MessageHeaders.SplitAtFirstColon | batv-filter.cpp:58-63 | `name:value` splits at the colon after the name |
| MessageHeaders.ParseHeaderLines | batv-filter.cpp:53-70 | a header line and its continuations read as that name and the unfolded value |
| MessageHeaders.ContinuationsEnd | batv-filter.cpp:66-70 | the continuation run stops at the first non-continuation line |
| MessageHeaders.TextAppend | batv-filter.cpp:142 | the text of concatenated lines is the concatenation of their texts |
| MessageHeaders.UnfoldText | batv-filter.cpp:69 | joining continuation lines with "\n" is their text |
| MessageHeaders.ParseHeaderText | batv-validate.cpp:86-106 | header parsing neither drops nor reorders text |
| MessageHeaders.Texts | batv-filter.cpp:137 | each header is written back as its text |
| MessageHeaders.ReadHeaders | batv-filter.cpp:41-73 | the headers end at the blank line (or, for the validator, the end of input); names have no colon; `read_header` fails without the blank line |
| MessageHeaders.ReadHeadersText | batv-filter.cpp:41-73 | reading headers loses no text: header texts plus the rest are the input |
| MessageHeaders.Keep | batv-filter.cpp:97-138 | keeping headers never adds any |
| MessageHeaders.KeepAppend | batv-filter.cpp:97-138 | keeping distributes over concatenation |
| MessageHeaders.KeepOne | batv-filter.cpp:98-100 | a dropped header vanishes, any other is copied |
| MessageHeaders.RewriteAfterDone | batv-filter.cpp:101-138 | after the rewrite, every later header is only copied or dropped |
| MessageHeaders.NoneQualifyCopied | batv-filter.cpp:130-138 | with no qualifying header, the loop only drops status headers |
| MessageHeaders.FirstQualifyingRewritten | batv-filter.cpp:101-138 | only the first qualifying header is rewritten; those before and after are copied or dropped |
| MessageHeaders.RewriteHead | batv-filter.cpp:101-129 | a qualifying first header is replaced and the rest copied or dropped |
| MessageHeaders.AfterWs | batv-filter.cpp:75-79 | the C string with its leading spaces removed, and no more |
| MessageHeaders.SkipSpaces | batv-validate.cpp:108-112 | the suffix after the leading spaces |
| BatvFilter.KeyedRecipient | batv-filter.cpp:102-110 | a recipient header names a prvs address whose original sender has a key exactly when this yields that address and key |
| BatvFilter.Qualifies | batv-filter.cpp:101-110 | the header `filter` rewrites when it has not rewritten one yet: the recipient header naming a keyed prvs address |
| BatvFilter.StatusLine | batv-filter.cpp:120-124 | `X-Batv-Status: valid` or `X-Batv-Status: invalid` by the verdict |
| BatvFilter.Restored | batv-filter.cpp:113-124 | the three lines for a qualifying header: name and original sender, `X-Batv-Delivered-To` with the old value, and the verdict |
| BatvFilter.Rewritten | batv-filter.cpp:101-133 | what a qualifying header becomes: Restored for a keyed prvs address, else the header copied |
| BatvFilter.RewriteHeaders | batv-filter.cpp:97-139 | the header loop: status headers dropped, the first qualifying header rewritten, the rest copied; FilterRewritesFirst and FilterCopiesUnkeyed state its output |
| BatvFilter.MboxHead | batv-filter.cpp:83-91 | in mbox mode the first line must start with "From " and is passed through; otherwise nothing is taken |
| BatvFilter.Filter | batv-filter.cpp:81-143 | fails exactly on a bad From line or bad headers; the From line comes first and the body is passed through unchanged |
| BatvFilter.FilterRewritesFirst | batv-filter.cpp:97-142 | the first keyed BATV recipient header is restored with its verdict; all other headers are copied and status headers dropped |
| BatvFilter.FilterCopiesUnkeyed | batv-filter.cpp:97-142 | without a keyed BATV recipient, the filter only drops status headers |
| BatvValidate.FromLine | batv-validate.cpp:124-128 | a leading "From " line is set aside, and the input is split without loss |
| BatvValidate.ReadMail | batv-validate.cpp:119-141 | the header loop of `parse_mail` and `filter`: a leading "From " line set aside, then headers read to the blank line or the end; ParseMail and Filter are stated through it |
| BatvValidate.RcptOf | batv-validate.cpp:137-138 | the recipient a header names: `after_ws`, `canon_address`, `Email_address::parse` |
| BatvValidate.Recipients | batv-validate.cpp:136-139 | at most one address per header |
| BatvValidate.RecipientsOne | batv-validate.cpp:136-139 | a single header gives its canonical address exactly when its name is the recipient header (ignoring case) |
| BatvValidate.RecipientsStep | batv-validate.cpp:136-139 | the first header's recipient comes before those of the headers after it |
| BatvValidate.RecipientsAppend | batv-validate.cpp:136-139 | the recipients of two runs of headers are those of the first then those of the second, in input order |
| BatvValidate.RecipientsNone | batv-validate.cpp:136-139 | there are no recipients exactly when no header is named the recipient header |
| BatvValidate.ParseMail | batv-validate.cpp:115-147 | fails exactly on malformed headers; otherwise gives the recipients of the headers read |
| BatvValidate.FilterLoop | batv-validate.cpp:174-183 | once a recipient is valid the result stays valid |
| BatvValidate.FilterLoopOutput | batv-validate.cpp:153-205 | the loop's output drops status headers, restores the first valid recipient and copies everything else |
| BatvValidate.Verdicts | batv-validate.cpp:174-179 | one verdict per recipient header at most |
| BatvValidate.LastOpinion | batv-validate.cpp:181-183 | the last verdict other than none, or none when every verdict is none |
| BatvValidate.LastOpinionCons | batv-validate.cpp:181-183 | an earlier verdict matters only when no later one has an opinion |
| BatvValidate.FilterLoopResult | batv-validate.cpp:174-183 | the final result is valid if any recipient is valid, else the last verdict other than none |
| BatvValidate.Trailer | batv-validate.cpp:207-211 | a trailer line is written exactly for a missing or bad signature |
| BatvValidate.Filter | batv-validate.cpp:149-215 | fails exactly on malformed headers; the From line comes first and the rest passes through |
| BatvValidate.ValidLines | batv-validate.cpp:186-192 | the three lines for a valid recipient header: restored, `X-Batv-Status: valid`, and the BATV address kept |
| BatvValidate.IsRcpt | batv-validate.cpp:174 | the recipient test `filter` applies to one header |
| BatvValidate.VerifyHeader | batv-validate.cpp:175-179 | the verdict `filter` gets for one recipient header |
| BatvValidate.FilterWrites | batv-validate.cpp:149-215 | end to end: the first valid recipient is restored, status headers dropped, and the trailer follows the settled result |
| BatvValidate.Results | batv-validate.cpp:330 | one result per recipient, in order |
| BatvValidate.ExitStatus | batv-validate.cpp:326-353 | prints exactly when some recipient is valid, namely the first valid one's true address, with status 0; otherwise the status is 11 or 10 for the last keyed recipient, 0 when none had a key |
| BatvValidate.FailureCode | batv-validate.cpp:333-341 | the exit status of a failed result: 11 for a missing signature, 10 for a bad one, else 0 |
| BatvValidate.Outcomes | batv-validate.cpp:326-329 | `verify` on each recipient, in order |
| BatvValidate.LastOpinionSnoc | batv-validate.cpp:331-341 | one more verdict decides the running status when it has an opinion |
| BatvValidate.Check | batv-validate.cpp:305-353 | malformed mail gives 1, mail without recipient headers 13; mail with recipients prints the true address of the first valid one exactly when one is valid, else exits with the failure code of the last verdict other than "none"; a single argument prints its true address exactly when valid and otherwise exits with its own failure code |
| BatvValidate.OutcomesInDomain | verify.cpp:39-71 | verify never answers multiple-recipients or error |
| BatvValidate.OneOutcome | batv-validate.cpp:316-320 | a single recipient's status is its own verdict |
| Milter.MilterStatus | batv-milter.cpp:54-62 | each failure mode maps to its own status, never continue |
| Milter.NewContext | batv-milter.cpp:38-44 | a new context is external, with no status headers, no BATV recipient and no key |
| Milter.Consistent | batv-milter.cpp:126-134 | the context invariant: when the BATV recipient is set, it has a key and tag type prvs; every callback keeps it |
| Milter.ClearMessageState | batv-milter.cpp:46-51 | clears the count, the sender and the BATV flag, and keeps the connection's data |
| Milter.OnConnect | batv-milter.cpp:64-87 | without a context, the internal-error status; otherwise continue, with the client internal exactly when there is no host address or an internal network matches |
| Milter.OnEnvfrom | batv-milter.cpp:89-108 | authentication can only make a client internal; the sender is kept in canonical form; nothing else changes |
| Milter.NoteRecipient | batv-milter.cpp:122-135 | a recipient is marked exactly when it is a prvs address with a keyed sender, remembering its raw text, address and key |
| Milter.RcptOf | batv-milter.cpp:123-124 | the recipient argument read canonical and split at the '@' |
| Milter.Qualifies | batv-milter.cpp:126-132 | a recipient that marks the message: a prvs address whose original sender has a key |
| Milter.OnEnvrcpt | batv-milter.cpp:110-139 | the first BATV recipient sticks; later recipients are ignored |
| Milter.NoRecipientQualifies | batv-milter.cpp:122-135 | without a qualifying recipient, none is marked |
| Milter.FirstBatvRecipientWins | batv-milter.cpp:122-135 | over a recipient sequence, the first qualifying one is the one kept |
| Milter.SkipRecipient | batv-milter.cpp:122-135 | a non-qualifying recipient leaves the search going |
| Milter.TakeRecipient | batv-milter.cpp:122-135 | a qualifying recipient ends the search |
| Milter.MarkedStaysMarked | batv-milter.cpp:122 | once marked, later recipients change nothing |
| Milter.OnHeader | batv-milter.cpp:141-157 | only a status header changes the context, and it adds one to the 32-bit count |
| Milter.Bump | batv-milter.cpp:152-154 | one header's effect on the count: one more, modulo 2^32, for a status header |
| Milter.HeadersOnlyCount | batv-milter.cpp:141-157 | a run of headers changes only the status-header count |
| Milter.CountStatus | batv-milter.cpp:152 | the number of status headers is at most the number of headers |
| Milter.CountAfterIsCount | batv-milter.cpp:152-154 | the running count is the start plus the status headers, modulo 2^32 |
| Milter.HeadersCountStatus | batv-milter.cpp:141-157 | after the headers, the context counts its status headers modulo 2^32 |
| Milter.DeleteStatusHeaders | batv-milter.cpp:172-178 | n deletions of the status header, at indices n down to 1 |
| Milter.Deletions | batv-milter.cpp:169-178 | the verify half begins with deletions only |
| Milter.StatusValue | batv-milter.cpp:183-189 | the status `on_eom` writes: "valid" only when the tag type is prvs and the tag validates |
| Milter.RecipientActions | batv-milter.cpp:180-208 | restoring the recipient neither deletes headers nor changes the sender |
| Milter.SignActions | batv-milter.cpp:211-226 | the sender is changed, once, exactly when there is a signing key |
| Milter.IsBatvAddress | batv-milter.cpp:214 | `is_batv_address(env_from)`: the sender's text parses as a BATV address |
| Milter.SigningKey | batv-milter.cpp:211-215 | the key to sign with: with signing on, an internal client and a sender not already BATV, the sender's key |
| Milter.SignedSender | batv-milter.cpp:218-220 | the new envelope sender: the prvs address generated for the sender, written out; SignedSenderVerifies proves it verifies |
| Milter.EomPlan | batv-milter.cpp:159-231 | every call `on_eom` makes when none fails, in order: deletions, the recipient calls, then the sender change; OnEom, StatusHeadersDeletedFirst and SignOnlyWhen state it |
| Milter.OnEom | batv-milter.cpp:159-231 | the planned calls are made in order, stopping at the failing one with the internal-error status; otherwise accept; message state is always cleared |
| Milter.OnAbort | batv-milter.cpp:233-240 | clears the message state and continues |
| Milter.CallbacksKeepConsistent | batv-milter.cpp:29-35 | every callback keeps "a marked recipient has its address and key" |
| Milter.StatusHeadersDeletedFirst | batv-milter.cpp:169-178 | when verifying, all existing status headers are deleted first, from the last down, and no later call deletes |
| Milter.StatusAndRecipientRestored | batv-milter.cpp:180-208 | for a BATV recipient: a valid or invalid status that is valid exactly when the tag validates, then the recipient is replaced by the original sender |
| Milter.SignOnlyWhen | batv-milter.cpp:211-226 | the sender is rewritten exactly for an internal client's non-BATV sender with a key, and as the last call |
| Milter.SignedSenderVerifies | batv-milter.cpp:211-220 | the sender the milter writes verifies as valid, for that sender, on every day of its lifetime |

## Left out

- I/O: streams are modelled as sequences of lines; getline's view is used, and a missing final newline is not distinguished. Error messages written to the log, debug output and `std::clog` buffering are omitted.
- The clock: `today()` (prvs.cpp:15-18) is a parameter `today` in 0..999, as its `% 1000` makes it.
- OpenSSL's `HMAC(EVP_sha1(), ...)` in prvs.cpp is modelled by the repository's own `Hmac<Sha1>`, which is proved to be RFC 2104 HMAC-SHA1.
- HmacSha1.Mac: for inputs of 2^64 bits or more, where SHA-1 is undefined, it returns zeros. No caller reaches this.
- Prvs.DecodeTag: reads the tag value strictly, as one digit, three digits and six hex digits. `sscanf("%1u%3u%2x%2x%2x")` is more lenient: a field stops early at the first character it cannot use (`01a2bcdef0` reads key 0, day 1 and bytes a2 bc de), and it also takes leading whitespace, signs and `0x`. Such values are rejected here, where the source goes on to the expiry and MAC checks; a field sscanf leaves unset is not read.
- Prvs.Validate: inherits DecodeTag's strict reading, so it may reject a lenient-form value that the source would accept if its MAC bytes matched.
- Prvs.ValidateRejectsAfterLifetime: covers days up to 999 after generation. Days are counted modulo 1000, so with a lifetime of 999 no day is refused, and later days repeat the ring.
- Ascii.Atoi: reads a numeral of any size as an unbounded integer. C's `atoi` is undefined outside `int` range (glibc truncates the result of `strtol`), so `lifetime 4294967297` is not read as 1 here.
- Util.ToBytes: one Dafny character stands for one `std::string` byte. A code point of 256 or more is reduced modulo 256.
- The two-argument `Batv_address::parse(address, delimiter)` and the Email_address-based `prvs_validate`/`prvs_generate` overloads are declared in prvs.hpp. Their definitions are not part of this model.
  - The parse is modelled by address.cpp's `parse` on the address text, which splits at the first '+' and ignores the configured delimiter.
  - `Batv_address::make_string(delim)` is modelled as Address.Format.
  - `Email_address::parse` is modelled as `split_address`.
- Prvs.Generate: the string form `prvs=VAL=orig` that prvs.cpp returns is not in address.cpp's grammar. The sign/verify round trip is stated for the address form written by the milter (Prvs.GenerateAddress, Address.Format).
- Common_config (common.cpp) is not part of this model.
  - Its fields are modelled with config.hpp's defaults.
  - Its `get_key` is modelled by key.cpp's `get_key`, with no default key.
  - `address_lifetime` is read modulo 2^32.
- `inet_pton` is two parameters of the CIDR parser, one per family.
- `Config::load`, `load_key` and `load_key_map` are omitted, along with the file-reading effects of the `config` and `key-map` directives: Config.Set returns those as effects to perform.
- libmilter: each callback returns the status and the list of calls it makes (`smfi_chgheader`, `smfi_addheader`, `smfi_delrcpt`, `smfi_addrcpt`, `smfi_chgfrom`). A failing call is chosen by a parameter.
  - `smfi_setpriv`/`smfi_getpriv` are modelled as an optional context.
  - `on_close` and `main` are omitted.
- A filter that hits an input error has already written the earlier lines to standard output. Both Filter functions return only the error.
- BatvValidate.ExitStatus: requires that no verdict is "multiple recipients" or "error". `verify` never returns them (BatvValidate.OutcomesInDomain).
- Util.ExplicitMemzero: the `volatile` guarantee against the compiler removing the stores has no meaning in the model.
- The rest of each `main`: option parsing, daemonising, sockets, and key-file loading.

## Findings

| source | as written | input that shows it | evidently intended | confidence | as-written member | corrected member |
|---|---|---|---|---|---|---|
| config.cpp:54-63 | an IPv4 prefix is added to 96 before the range check, so negative prefixes down to -96 are accepted, and `/-1` reads as "no prefix" (a /128) | `internal-host 10.0.0.1/-8` gives prefix 88, which every IPv4-mapped address matches, so every IPv4 client is internal and signed for | reject IPv4 prefixes outside 0..32 | high, not executed | Config.ParseCidr, Config.NegativeIpv4PrefixCoversAll, Config.AddInternalHost, Config.SetNegativeInternalHost | Config.ParseCidrChecked, Config.ParseCidrCheckedIpv4, Config.AddInternalHostChecked |

Config.Set keeps the source's `internal-host` behaviour (Config.AddInternalHost), so the milter model admits the same internal hosts the program does. Config.AddInternalHostChecked is the directive with the corrected parser, and every network it adds has a prefix in range.
