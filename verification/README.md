# libdnet in Dafny

libdnet is a C library for low-level networking with a Python binding. This project models the part
of it that does not depend on an operating system, and proves what that part is for. The model
follows the code: where the code and the intention disagree, the model does what the code does and a
lemma says exactly on which inputs they meet.

| file | component |
|---|---|
| `RandXrange.dfy` | the random-permutation iterator of the Python binding |
| `Rand.dfy` | the RC4-style generator and the block shuffle |
| `Prefix.dfy` | masks, network and broadcast addresses, comparison, containment, iteration |
| `CText.dfy`, `AddrText.dfy`, `Ip6Text.dfy`, `AddrCodec.dfy` | `strtol`, and printing and parsing of IPv4, MAC and IPv6 addresses with prefix lengths |
| `Cksum.dfy`, `IpCksum.dfy`, `Ip6Cksum.dfy` | the Internet checksum in an `int`, and the checksums of IPv4 and IPv6 packets |
| `Crc32c.dfy` | the table-driven CRC of SCTP |
| `IpOption.dfy` | inserting an IP or TCP option into a packet |
| `Fragment.dfy` | sending a packet as fragments |
| `IntfList.dfy` | the interface list with move-to-front lookup |
| `Blob.dfy`, `BlobFormat.dfy` | the growable buffer and its format-driven packer and unpacker |
| `IfCombo.dfy` | interface names on Windows |
| `Bits.dfy`, `Counting.dfy`, `Memory.dfy`, `ByteOrder.dfy`, `Dnet.dfy` | bit arithmetic on numbers, counting, buffers, host byte order, constants |

Functions that only read become functions; code that updates state becomes methods over arrays and
classes with loops, and each such method is proved equal to a function on sequences about which the
lemmas speak. An `int` has 32 bits and wraps where the code lets it; hosts are little-endian or
big-endian, as a parameter where it matters. Allocation, sending and opening a device may fail, as
parameters.

Where the code does less than it seems to promise, the exact condition is proved:

- TCP and UDP checksums are wrong whenever the sum leaves the range of an `int`. On a little-endian
  host `htonl` puts the low byte of protocol plus length on top, so every segment for which that
  byte is 128 or more is affected (`IpCksum.TcpVerifiesIff`, `IpCksum.LowLengthByteDecides`).
- The ICMP checksum is right only if its field was 0, or 0xffff (`IpCksum.IcmpVerifiesIff`).
- The CRC needs a 32-bit `unsigned long` (`Crc32c.WideLongSpoilsCrc`). The checked-in
  `include/config.h` is that of Windows, where `unsigned long` has 32 bits.
- Fragments are put together again only if the MTU less the header is a multiple of 8
  (`Fragment.ReassemblyIff`).
- A dotted quad at the end of an IPv6 address is printed with swapped bytes on a little-endian host
  (`Ip6Text.RoundTripIff`).
- `addr_pton` takes a trailing slash for a prefix length of 0, and errs in no other way about a missing
  number (`AddrCodec.TrailingSlashIff`).
- `ip6_pton` refuses seven words followed by `::` (`Ip6Text.GapTextRead`).
- Iteration over an IPv4 prefix that ends in 255.255.255.255 never stops where `unsigned long` has
  32 bits (`Prefix.StopsIff`).
- A shuffle of different blocks can produce every order but those that leave the last block last
  (`Rand.OutcomeIff`, `Rand.DistinctOutcomeIff`).
- `blob_insert` moves as many bytes too many as it inserts, and writes past the allocation unless that
  has room for them (`Blob.InsertStaysInsideIff`, `Blob.InsertCanOverrun`).
- Looking up a Windows interface by name ignores the type in the name, so it may find an adapter of
  another kind with the same index pair (`IfCombo.LookupFindsIff`, `IfCombo.LookupIgnoresType`).
- A literal with its top bit set never unpacks where `char` is signed
  (`BlobFormat.UnpackInvertsPack`).
- A type-only option whose claimed length is not 1 modulo 4 leaves the header length field short
  (`IpOption.WholeWordsIff`, `IpOption.HeaderGrowsIff`).

`src/ip-cooked.c` calls `ip_checksum` with two arguments where `include/dnet/ip.h` declares three;
the proofs about fragments hold for whatever value the third one has.

## Model

| member | source | states |
|---|---|---|
| RandXrange.OutputsOnceEach | python/dnet.c:5824-5920 | For every key table and every `max` up to 2^30 the results of `__next__` after `__iter__` are `max` different values and exactly the integers of `[start, start + max)` |
| RandXrange.OrderIsPermutation | python/dnet.c:5824-5902 | The order of visits holds every index below `max` exactly once and nothing else |
| RandXrange.UnusedIndexRemains | python/dnet.c:5853-5901 | Whenever fewer than `max` results were given, an index not yet tried maps below `max`, so the endless-looking retry loop ends |
| RandXrange.MixBijective | python/dnet.c:5864-5890 | The mix permutes `[0, 2^bits)` for every key table and any number of rounds: into, one-to-one and onto |
| RandXrange.RoundInjective | python/dnet.c:5874-5887 | One round maps different values below `2^bits` to different values |
| RandXrange.KeyedInjective | python/dnet.c:5877-5878 | The keyed XOR loses nothing even after the mask: it changes only bits at or above `kshift`, and its table index reads only bits below it |
| RandXrange.RotationInjective | python/dnet.c:5886-5887 | The last step of a round is a rotation of `bits` bits, because the two shift counts add up to `bits` |
| RandXrange.MixTakenBack | python/dnet.c:5864-5890 | Who has the key can undo the mix: 31 times rotate back, take the running sum off, and XOR the word of the key again |
| RandXrange.RoundTakenBack | python/dnet.c:5874-5887 | One round is undone exactly; the index of the key word can be told from the bits the XOR leaves alone |
| RandXrange.KeyMatters | python/dnet.c:5877-5878 | Two key tables do the same to a value in a round exactly when their words at the one index it selects agree in the bits that count |
| RandXrange.SumIsMultiple | python/dnet.c:5874-5876 | The running sum of round `i` is `i` times 0x9e3779b9, in the width of the word |
| RandXrange.OrderFollowsIndices | python/dnet.c:5853-5901 | The results come in the order of the indices they are mixed from, so undoing the mix sorts them |
| RandXrange.OutputsFollowIndices | python/dnet.c:5824-5920 | Call by call: taking `start` off the results and undoing the mix gives ascending indices |
| RandXrange.SboxWordBytes | python/dnet.c:5722-5722 | The key table holds the drawn bytes four by four, as a little-endian host reads them |
| RandXrange.RandXrangeIter.constructor | python/dnet.c:5652-5766 | The iterator starts with parameters that meet all the conditions the mix needs, for 31 rounds and with both counters at 0; `max` counts the integers from `start` to `stop` |
| RandXrange.RandXrangeIter.Iter | python/dnet.c:5782-5804 | A restart of the iteration with the same key |
| RandXrange.RandXrangeIter.Next | python/dnet.c:5824-5920 | Call number `cur` returns element `cur` of the order shifted by `start`, and stops exactly when `max` results were given; the retry loop is proved to end |
| RandXrange.RandXrangeIter.Encipher | python/dnet.c:5864-5890 | The round loop computes the mix that is proved a bijection |
| RandXrange.RandXrangeIter.List | python/dnet.c:5824-5920 | Calling `__next__` until it stops yields the whole permutation |
| RandXrange.CountBits | python/dnet.c:5724-5736 | The width is the least one with `max <= 2^bits` |
| Rand.RunKeepsPermutation | src/rand.c:41-187 | Every run of seeding, re-seeding and generation keeps the 256-byte table a permutation of all byte values |
| Rand.StepIsReversible | src/rand.c:147-159 | Generating a byte changes the state reversibly, in both directions |
| Rand.StepsInjective | src/rand.c:161-171 | Different states stay different after any number of generated bytes |
| Rand.OutputOfOldTable | src/rand.c:147-159 | The byte in terms of the table before the exchange: the entry at the sum of the two entries exchanged, or one of these |
| Rand.UnseededBytes | src/rand.c:147-159 | The first bytes of the table that was not seeded |
| Rand.AddRoundIsReversible | src/rand.c:57-63 | A seeding round is undone with its seed byte, and different seed bytes do different things |
| Rand.SeedingTakenBack | src/rand.c:51-66 | Seeding loses nothing but the second index, which ends equal to the first: from that index the 256 rounds are undone with the seed |
| Rand.SettingTakenBack | src/rand.c:173-180 | `rand_set` seeds the fresh table twice: undone in two steps it is the identity again |
| Rand.SeedDeterminesState | src/rand.c:173-180 | After `rand_set` the state depends on the seed only, and only on the 256 bytes its repetition begins with |
| Rand.SeedIgnoresBytesPast256 | src/rand.c:51-66 | Seed bytes behind the 256th have no effect |
| Rand.ShuffleKeepsMultiset | src/rand.c:238-246 | A shuffle rearranges the blocks: none is lost, none is doubled |
| Rand.OutcomeIff | src/rand.c:238-246 | The orders that some draws produce, equal blocks or not, are exactly the rearrangements with a block equal to the last one somewhere in front of the last slot: the partner is drawn below `nmemb - 1`, and nothing else is ruled out |
| Rand.DistinctOutcomeIff | src/rand.c:238-246 | Of different blocks exactly those orders come out in which the last block is not the last |
| Rand.ShuffleIsByPartners | src/rand.c:238-246 | The shuffle is the one that its draws, each taken from the generator modulo `nmemb - 1`, determine |
| Rand.ShuffleTakenBack | src/rand.c:238-246 | Who knows the draws can put the blocks back, so each round exchanges the block it counts with the one it drew |
| Rand.ShuffleDraws | src/rand.c:238-239 | Every block takes one draw of four bytes |
| Rand.Reduce | src/rand.c:239-239 | The draw is below `nmemb - 1` and congruent to the word modulo that |
| Rand.BlocksExchanged | src/rand.c:240-244 | The three copies of a round exchange two whole blocks and touch nothing else |
| Rand.Handle.Open | src/rand.c:120-145 | A new handle is seeded, and its table is a permutation of all byte values, which is where the invariant of every run starts |
| Rand.Handle.Init | src/rand.c:41-49 | The table becomes the identity |
| Rand.Handle.AddRandom | src/rand.c:51-66 | 256 seeding rounds, with the repeated seed, from any state |
| Rand.Handle.GetByte | src/rand.c:147-159 | One reversible state change and the byte read out of the new state |
| Rand.Handle.Get | src/rand.c:161-171 | The next `len` bytes of the stream |
| Rand.Handle.Set | src/rand.c:173-180 | The state the seed determines, whatever the handle held |
| Rand.Handle.Uint32 | src/rand.c:205-215 | Four bytes of the stream, the first one most significant |
| Rand.WordBytes | src/rand.c:205-215 | The bytes of the word, the first one drawn on top |
| Rand.Handle.Shuffle | src/rand.c:217-248 | On success the blocks and the generator are those of the block-level shuffle; on failure nothing changed; never is a byte outside the blocks touched |
| Prefix.AddrCmp | src/addr.c:51-78 | The sign of the result is the lexicographic order of type, prefix length and leading bits; zero exactly when all three agree |
| Prefix.PrecedesIff | src/addr.c:51-78 | That order bit by bit: by type, then by prefix length, then by the first bit inside the prefix in which the addresses differ |
| Prefix.BeforeIsTotalPreorder | src/addr.c:51-78 | That order is a total preorder |
| Prefix.LeadingEqualIffBits | src/addr.c:64-77 | Equal leading bits as numbers are equal bits one by one |
| Prefix.AddrNet | src/addr.c:105-140 | The network address of every type; for IPv6 the fall-through of word copies equals the masking of all sixteen bytes |
| Prefix.NetIs | src/addr.c:105-140 | Type, length and bytes of the network address: the number of the prefix with zeros behind it, of a MAC group address the first three bytes, nothing for other types |
| Prefix.NetWords | src/addr.c:124-135 | The word-wise IPv6 network equals the byte-wise AND with the mask of `bits` ones |
| Prefix.AddrBcast | src/addr.c:142-163 | The broadcast address; an error for IPv6 and unknown types |
| Prefix.BcastIs | src/addr.c:142-163 | Type, length and bytes of the broadcast address: the last number of the prefix, ones for a MAC address, nothing for other types |
| Prefix.NetValue | src/addr.c:111-115 | The network address is the address number with the bits behind the prefix cleared |
| Prefix.BcastValue | src/addr.c:147-152 | The broadcast address is the network number with all bits behind the prefix set |
| Prefix.AddrBtom | src/addr.c:454-484 | The mask of `bits` ones for 4-byte and byte-wise sizes, or -1 exactly when they do not fit |
| Prefix.MaskLeadingOnes | src/addr.c:454-484 | Exactly the first `bits` bits of the mask are ones |
| Prefix.AddrMtob | src/addr.c:486-508 | The number of leading one bits of any mask, contiguous or not |
| Prefix.MaskLengthRoundTrip | src/addr.c:454-508 | `addr_mtob` undoes `addr_btom` for every length and size |
| Prefix.Contains | python/dnet.c:2341-2390 | For an IPv4 operand true exactly when its prefix is no longer than the other's and the leading bits agree; for a MAC operand exactly when the other is a MAC address whose network address is not smaller; false when either side has no broadcast address |
| Prefix.RangeInside | python/dnet.c:2373-2378 | Comparing network and broadcast addresses of both sides amounts to containment of prefixes |
| Prefix.NestedOrDisjoint | python/dnet.c:2341-2390 | Two IPv4 prefixes with an address in common are nested |
| Prefix.HoldsTransitive | python/dnet.c:2341-2390 | Containment is transitive |
| Prefix.Ip4Iter.Next | python/dnet.c:2722-2791 | One address and a step of the counter, or the end of the iteration |
| Prefix.StopsIff | python/dnet.c:2734-2762 | The iteration ends exactly when `unsigned long` is wider than 32 bits or the last address is not 255.255.255.255 |
| Prefix.Iterate | python/dnet.c:2582-2642 | An IPv4 prefix yields its `2^(32-bits)` addresses in numeric order and then stops, where `unsigned long` is wider than 32 bits or the last address is not 255.255.255.255; other types raise |
| Prefix.IterationIsContainment | python/dnet.c:2341-2791 | What iteration yields is exactly what the prefix contains, each address once |
| AddrText.OctetsRoundTrip | src/addr-util.c:74-168 | Printed IPv4 and MAC addresses are read back, for any octets |
| AddrText.OctetsRead | src/addr-util.c:94-168 | Numerals with separators between them, of any size and in any spelling: accepted exactly when there are as many as asked for and none exceeds 255, and read as those octets |
| AddrText.BrokenOctetsRefused | src/addr-util.c:94-168 | Refused are an empty octet, a separator at the end, and anything but a separator behind a number |
| AddrText.OctetsTextIs | src/addr-util.c:74-140 | What is printed: the entries of the tables with dots or colons between them |
| CText.PrintedIff | src/addr-util.c:17-45 | `%d`, `%x` and the table of decimal octets: the lower-case numeral without leading zeros that has the value, and no other |
| CText.PaddedIff | src/addr-util.c:47-72 | The table of hexadecimal octets: the two lower-case digits that have the value |
| CText.StrtolByRule | src/addr-util.c:94-300 | What the parsers get from `strtol`: space, a sign, `0x` in base 16 and digits are read, as much as fits a `long` of 32 bits; without digits nothing is read |
| CText.CharClasses | src/addr-util.c:94-300 | Which characters are digits, of what value, and which are space |
| AddrText.OctetsNtop | src/addr-util.c:132-137 | The printing loop leaves the octets with separators between them and a terminator in place of the last one |
| AddrText.IpNtop | src/addr-util.c:121-140 | The dotted quad, or NULL exactly when fewer than 16 characters are available |
| AddrText.OctetsPton | src/addr-util.c:151-168 | The verdict and octets of the reading loops of `ip_pton` and `eth_pton`; nothing outside the target is written |
| AddrText.EthNtop | src/addr-util.c:74-92 | The colon-separated address, or NULL exactly when fewer than 18 characters are available |
| Ip6Text.FindRun | src/addr-util.c:189-211 | The search loop finds the leftmost longest run of at least two zero words, or none |
| Ip6Text.LongestUnique | src/addr-util.c:189-211 | Only one run is longest and leftmost |
| Ip6Text.Ip6Ntop | src/addr-util.c:170-234 | The text of section 4.2 of RFC 5952 with a dotted quad where the code prints one, or NULL exactly when fewer than 46 characters are available |
| Ip6Text.TextByRule | src/addr-util.c:189-234 | What is printed by rule: plain if no two zero words stand together, otherwise with `::` for the first of the longest runs, and with a dotted quad if that is the first six words, or the first five in front of 0xffff |
| Ip6Text.HexTextsAre | src/addr-util.c:226-226 | Each word is printed with `%x` |
| Ip6Text.TextLength | src/addr-util.c:170-234 | Every printed address fits 40 bytes with its terminator |
| Ip6Text.Ip6Pton | src/addr-util.c:245-300 | Accepts exactly the texts the reference reader accepts, stores its words in network order, and writes nothing on failure |
| Ip6Text.PlainTextRead | src/addr-util.c:245-300 | Of words with colons between them, in any case and with any leading zeros, exactly those lists are accepted that have eight words of at most 16 bits, and they are read as those words; a single colon in front makes no difference |
| Ip6Text.GapTextRead | src/addr-util.c:245-300 | Of two such lists around `::` (section 2.2 of RFC 4291) exactly those are accepted that have at most seven words in all and not all seven in front, and they are read as these words with zeros between: seven words and then `::`, which the RFC allows, are refused |
| Ip6Text.GapReadsBackIff | src/addr-util.c:245-300 | Any run of one or more zero words may be given as `::` and reads back exactly unless it is the last word alone |
| Ip6Text.PlainQuadRead | src/addr-util.c:245-300 | Of words with colons and a dotted quad at the end exactly those texts are accepted that have six words of at most 16 bits, and they are read as these words and the four bytes of the quad |
| Ip6Text.GapQuadRead | src/addr-util.c:245-300 | Of two lists around `::` with a dotted quad at the end exactly those are accepted that have at most five words of at most 16 bits, which is what section 2.2 of RFC 4291 asks for, and they are read with zeros in between |
| Ip6Text.SecondGapRefused | src/addr-util.c:258-262 | `::` may stand once, whatever is between or behind |
| Ip6Text.BrokenEndRefused | src/addr-util.c:277-283 | Refused are a colon at the end and anything but a colon or a dot behind a word, with or without `::` in front |
| Ip6Text.ParsePrinted | src/addr-util.c:170-300 | What every printed address reads back as, on hosts of both byte orders |
| Ip6Text.RoundTripIff | src/addr-util.c:170-300 | `ip6_pton(ip6_ntop(a)) == a` exactly when the address is not printed with a dotted quad, the host is big-endian, or swapping the bytes of the last two words changes nothing |
| Ip6Text.DottedQuadSwapsOnLittleEndian | src/addr-util.c:219-225 | `::ffff:1.2.3.4` comes back as `::ffff:2.1.4.3` on a little-endian host |
| AddrCodec.AddrNtop | src/addr.c:165-188 | The text with its prefix length, of whatever size, unless that is full, and exactly when it refuses |
| AddrCodec.PrintsIff | src/addr.c:168-187 | How many characters are asked for, by type, and that a MAC address needs all its bits |
| AddrCodec.TextFits | src/addr.c:165-188 | The text always fits the buffer that was asked for, but for an IPv4 address with a prefix length of four digits or more |
| AddrCodec.AddrPton | src/addr.c:190-247 | Type, prefix length and significant bytes of what the reference reader makes of the text, or -1 |
| AddrCodec.DottedHostRead | src/addr.c:222-237 | Decimal numbers with dots between them, of any count and size: an IPv4 address of 32 bits exactly when there are four and none exceeds 255, otherwise the business of the resolver |
| AddrCodec.ColonHostRead | src/addr.c:225-231 | Hexadecimal numbers with colons between them: a MAC address of 48 bits exactly when there are six of at most 255, an IPv6 address of 128 when there are eight of at most 16 bits |
| AddrCodec.PrefixRead | src/addr.c:201-246 | A number behind the slash is the prefix length, and refused exactly when it exceeds the width of the host |
| AddrCodec.MaskRead | src/addr.c:201-246 | A mask behind the slash is refused unless it is four octets, and its leading ones are the prefix length, refused if they exceed the width of the host |
| AddrCodec.BrokenPrefixRefused | src/addr.c:212-216 | Refused are a negative number and one with anything behind it |
| AddrCodec.ResolvedIs | src/addr.c:232-237 | What the resolver finds is an IPv4 address of 32 bits |
| AddrCodec.Ip6TextIsNeither | src/addr.c:222-228 | No printed IPv6 address is taken for an IPv4 or MAC address by the parsers tried before |
| AddrCodec.EthTextIsNoQuad | src/addr.c:222-225 | No printed MAC address is taken for an IPv4 address |
| AddrCodec.AddrRoundTrip | src/addr.c:165-247 | `addr_pton(addr_ntop(a))` gives back type, prefix length and significant bytes of every printable address except the dotted-quad family on little-endian hosts, and of no other |
| AddrCodec.MaskFormsAgree | src/addr.c:201-217 | `a/n` and `a/<dotted mask of n>` parse alike, whatever `a` is |
| AddrCodec.TrailingSlashIff | src/addr.c:190-247 | The test for a missing number compares with the wrong pointer; against the right comparison the result differs exactly for a host, a slash and nothing more, which is taken for a prefix length of 0 instead of being refused |
| AddrCodec.WrongPointerIff | src/addr.c:201-217 | That comparison matters for no tail but the empty one |
| Cksum.IpCksumAdd | src/ip-util.c:184-238 | The unrolled loop returns the accumulator plus the plain word sum in an `int`, odd byte zero-padded, with the exact behaviour for lengths 0 and 1 |
| Cksum.AddsPlainSumIff | src/ip-util.c:184-238 | It is the plain sum exactly for lengths of 2 or more, for length 1 with an accumulator of 0, and for length 0 when the 32 bytes read anyway are zero; a single byte drops the accumulator, and length 0 counts as 32 |
| Cksum.SumOfParts | src/ip-util.c:184-238 | Sums compose over a split at an even offset |
| Cksum.SumIsNumber | src/ip-util.c:184-238 | The sum is, modulo 65535, the number that the bytes spell, and 256 times it on a little-endian host |
| Cksum.PaddingIsFree | src/ip-util.c:234-235 | A last odd byte counts as if a zero followed |
| ByteOrder.HtonsIsNetworkOrder | src/ip-util.c:191-191 | What `htons` makes is stored in network order on every host |
| ByteOrder.HtonlTurnsRound | src/ip-util.c:106-106 | `htonl` turns the four bytes round on a little-endian host and does nothing on a big-endian one |
| Cksum.PacketSumFits | src/ip-util.c:184-238 | No sum over up to 65535 bytes from a zero start overflows an `int` |
| Cksum.CarryNegates | include/dnet/ip.h:453-454 | `ip_cksum_carry` is minus the sum modulo 65535, for every sum an `int` or an unsigned 32-bit word can hold |
| Cksum.CarryEnds | include/dnet/ip.h:453-454 | It is 0 exactly for positive multiples of 65535 and 0xffff exactly for 0 |
| Cksum.SameBytesOnAnyHost | src/ip-util.c:184-238 | Little-endian and big-endian hosts store the same two bytes |
| Cksum.FoldsToZeroIff | include/dnet/ip.h:453-454 | A total that was truncated to an `int` yields a checksum that verifies exactly when nothing was truncated |
| IpCksum.TcpChecksum | src/ip-util.c:101-109 | Field cleared, sum over segment, length and addresses, stored |
| IpCksum.UdpChecksum | src/ip-util.c:111-121 | The same for UDP, with 0 sent as 0xffff |
| IpCksum.IcmpChecksum | src/ip-util.c:123-129 | The sum over the message as it is, stored |
| IpCksum.IpChecksum | src/ip-util.c:131-182 | Which checksums are stored for which packets: header, then by protocol unless the packet is a fragment or the flag is set |
| IpCksum.PacketCases | src/ip-util.c:131-153 | Nothing is done to less than 20 bytes, the header alone with the flag or when the more-fragments bit or the offset is set (the don't-fragment bit plays no part), and the transport checksum too otherwise |
| IpCksum.TransportCases | src/ip-util.c:157-181 | Which transport checksum is stored, by protocol and least length |
| IpCksum.WholeIff | src/ip-util.c:148-151 | The test for a fragment on the two bytes |
| IpCksum.TcpVerifiesIff | src/ip-util.c:101-109 | A receiver accepts the segment with its pseudo-header exactly when the true sum, with the length in the host's `htonl` form, fits an `int` |
| IpCksum.UdpVerifiesIff | src/ip-util.c:111-121 | The same for UDP; the stored checksum is never 0 |
| IpCksum.LowLengthByteDecides | src/ip-util.c:101-121 | On a little-endian host no TCP or UDP segment verifies for which the low byte of protocol plus length is 128 or more; up to 123 every segment of at most 1500 bytes does |
| IpCksum.IcmpVerifiesIff | src/ip-util.c:123-129 | The message verifies exactly when its field was 0 before, or 0xffff with some other word not 0 |
| IpCksum.HeaderVerifies | src/ip-util.c:139-143 | With the stored checksum a header verifies exactly when it is long enough to hold the field, or verified before |
| IpCksum.SctpVerifies | src/ip-util.c:173-179 | A receiver that clears the field and computes the CRC again finds the bytes that are there |
| IpCksum.FragmentKeepsPayload | src/ip-util.c:145-151 | Of a fragment only the two checksum bytes change, whatever the flags |
| IpCksum.PacketHeaderVerifies | src/ip-util.c:131-182 | The same after the transport checksum was stored, whatever that was |
| IpCksum.PacketTcpVerifiesIff | src/ip-util.c:131-163 | `ip_checksum` on an unfragmented TCP packet: accepted exactly when the sums fit an `int` |
| IpCksum.PacketUdpVerifiesIff | src/ip-util.c:131-168 | `ip_checksum` on an unfragmented UDP packet: accepted exactly when the sums fit an `int` |
| IpCksum.PacketIcmpVerifiesIff | src/ip-util.c:131-172 | `ip_checksum` on an unfragmented ICMP or IGMP packet: the message verifies under the condition on its field |
| IpCksum.PacketSctpVerifies | src/ip-util.c:131-181 | `ip_checksum` on an unfragmented SCTP packet: the stored CRC is what a receiver computes |
| Ip6Cksum.FindUpper | src/ip6.c:25-31 | The walk ends, and finds the first header that is no extension, or nothing when an extension header would start behind the packet |
| Ip6Cksum.WalkPasses | src/ip6.c:25-31 | In a packet made of any number of hop-by-hop, routing, fragment and destination headers the walk passes all of them and finds what is behind |
| Ip6Cksum.WalkFallsShort | src/ip6.c:25-31 | If the packet ends before one of them starts nothing is found |
| Ip6Cksum.Ip6Checksum | src/ip6.c:17-72 | Which field of which upper layer is stored, and nothing else |
| Ip6Cksum.Ip6Untouched | src/ip6.c:35-71 | Any other upper layer, and one too short for its header, is left alone |
| Ip6Cksum.Ip6VerifiesIff | src/ip6.c:35-62 | TCP, UDP and ICMPv6 are accepted with the pseudo-header of section 8.1 of RFC 8200 exactly when the sums fit an `int` and protocol plus length fit 16 bits |
| Ip6Cksum.Ip6IcmpVerifies | src/ip6.c:63-71 | ICMP and IGMP behind IPv6 always verify |
| Ip6Cksum.LengthSumResidue | src/ip6.c:40-40 | What the 16-bit argument of `htons` loses of protocol plus length, modulo 65535 |
| Crc32c.TableHolds | src/crc32ct.h:15-80 | Every one of the 256 table entries is eight steps of the reflected Castagnoli division of its index |
| Crc32c.MacroDividesByte | src/crc32ct.h:13-13 | The macro `CRC32C` divides one whole byte out of the running value |
| Crc32c.Crc32c | src/ip-util.c:17-38 | The table-driven loop returns the bit-at-a-time CRC with its complement and byte reversal |
| Crc32c.StepMirrorsDivision | src/crc32ct.h:12-13 | A step is division by the polynomial `CRC32C_POLY` read from the other end of the word |
| Crc32c.RunConcatenates | src/ip-util.c:26-28 | The running value over a concatenation goes on from that of the first part |
| Crc32c.Residue | src/ip-util.c:17-38 | Whatever the message is, with the four bytes of its CRC behind it the running value ends at 0xB798B438: initial value, complement and byte order are those of the Castagnoli CRC |
| Crc32c.WideByteIsMacro | src/crc32ct.h:13-13 | The two words of a 64-bit register together follow the macro `CRC32C` |
| Crc32c.CheckValues | src/ip-util.c:17-38 | The CRC of nothing is 0, that of the digits 1 to 9 is the check value of the polynomial, bytes in opposite order |
| Crc32c.FourBytesAreDetected | src/ip-util.c:17-38 | Damage confined to four bytes in a row always changes the CRC |
| Crc32c.WideLongSpoilsCrc | src/ip-util.c:21-28 | With a 64-bit `unsigned long` the low word of the result is right for the empty message only |
| IpOption.AddOption | src/ip-util.c:40-99 | Refused exactly for other protocols or lack of room for the claimed length, then with nothing changed; else the packet with padding and option opened in at the end of the header, and the amount inserted |
| IpOption.LayoutIs | src/ip-util.c:47-61 | Where the headers start and end and how long they and the packet say they are; only protocols 0 and 6 take options |
| IpOption.RefusedIff | src/ip-util.c:63-72 | Refused is what would make the header longer than 60 bytes or the packet longer than the buffer, counting the claimed length in whole words |
| IpOption.InsertionIs | src/ip-util.c:62-88 | Inserted are fewer than four NOPs, up to whole words, and the option, of which types 0 and 1 have one byte |
| IpOption.PacketAfterInsertion | src/ip-util.c:78-98 | A call that inserts whole words leaves a well-formed packet: same payload, old option bytes kept with the insertion behind them, both lengths raised by the amount |
| IpOption.OptionIsFound | src/ip-util.c:40-99 | Walking the new option list yields the old options, the NOPs and the new option; only the old ones if an end-of-list option was among them |
| IpOption.RunOfCalls | src/ip-util.c:40-99 | Over every run of calls, refused ones included, the packet stays well-formed, the payload the same, and the option list is the first one followed by what the accepted calls added |
| IpOption.OptionsAppend | src/ip-util.c:82-88 | An option list that was walked to its end goes on with what is put behind it; one that was ended does not |
| IpOption.HeaderGrowsIff | src/ip-util.c:91-96 | The header length field grows by what was inserted exactly when that is a multiple of 4; `ip_len` exactly when it stays below 65536 |
| IpOption.WholeWordsIff | src/ip-util.c:63-75 | Whole words are inserted exactly when the option is not type-only, or is and its claimed length is 1 modulo 4 |
| IpOption.InsertedParts | src/ip-util.c:77-88 | The insertion stands behind the header, the data behind the insertion, and in front of it only length fields changed |
| IpOption.OtherHalfKept | src/ip-util.c:91-94 | Of the byte with the header length the other four bits stay |
| Fragment.IpSend | src/ip-cooked.c:182-219 | The frames sent for a packet, and -1 exactly when a send fails, with the frames before it sent |
| Fragment.SendFrom | src/ip-cooked.c:196-212 | The loop ends and sends the fragments in order up to the first failure |
| Fragment.FrameSizes | src/ip-cooked.c:195-212 | Every frame but the last fills the MTU, and none is empty |
| Fragment.ReassemblyIff | src/ip-cooked.c:182-213 | From frames in any order a receiver gets each payload byte once and in its place, with only the last fragment's `IP_MF` clear, exactly when the MTU less the header is a multiple of 8 |
| Fragment.FramesOverlap | src/ip-cooked.c:200-201 | Otherwise the second fragment lands on the first |
| Fragment.FragmentHeaders | src/ip-cooked.c:196-207 | Every fragment carries the packet's header but for length, offset and checksum, states its own length, keeps to the MTU, and its header checksum verifies |
| Fragment.FragmentData | src/ip-cooked.c:197-203 | The checksum call, made without its third argument, leaves the data of every real fragment alone |
| IntfList.List.InsertHead | include/queue.h:204-209 | The list stays well linked in both directions, with the node in front |
| IntfList.List.Remove | include/queue.h:211-216 | The list stays well linked without the node, the others in order |
| IntfList.List.AddIpIntf | src/ip-cooked.c:42-65 | An eligible interface becomes the first node, any other is passed over; -1 exactly when memory runs out |
| IntfList.List.AddAll | src/ip-cooked.c:83-88 | The list holds the eligible interfaces, the last one first |
| IntfList.ListedIff | src/ip-cooked.c:47-51 | Listed is exactly what is Ethernet and up, has an MTU of at least 64, an IP address and a hardware address |
| IntfList.LaterInFront | include/queue.h:204-209 | What is reported later is in front |
| IntfList.NodeIsFor | src/ip-cooked.c:53-62 | Every node stands for a reported interface, with its addresses and MTU and as much of its name as fits; the MTU leaves room for a frame, which keeps the fragment size positive |
| IntfList.List.Search | src/ip-cooked.c:109-110 | The first node with the address, or none |
| IntfList.List.Lookup | src/ip-cooked.c:95-124 | The answer of a search, NULL when the device cannot be opened; a hit is open and in front afterwards, the list still well linked |
| IntfList.SearchIsStable | src/ip-cooked.c:109-122 | After any run of lookups a search finds the node it would have found in the original list, even when nodes share an address |
| IntfList.AnswerIsSearch | src/ip-cooked.c:95-124 | So every lookup of a run answers as a search of the original list does, provided the device is or can be opened |
| IntfList.RunKeepsNodes | src/ip-cooked.c:95-124 | Every run keeps the same nodes, each once, and closes no device |
| IntfList.OrderAfterRun | src/ip-cooked.c:116-119 | After any run the list is the nodes that were hit, most recent first, then the others in their original order |
| Blob.Blob.constructor | src/blob.c:61-75 | A new blob is empty, with the cursor at 0 |
| Blob.Blob.Reserve | src/blob.c:77-99 | The end moves exactly when there is room or memory; what was there stays, across reallocation |
| Blob.NewSizeRule | src/blob.c:82-88 | How much is allocated: whole units beyond one unit, at most one more than needed |
| Blob.Blob.Read | src/blob.c:101-111 | The bytes from the cursor on, as many as there are, and the cursor behind them |
| Blob.Blob.Write | src/blob.c:113-123 | The bytes overwrite and then extend the data, or nothing changes and -1 is returned |
| Blob.Blob.Insert | src/blob.c:125-136 | The bytes stand at the cursor and what followed stands behind them, or nothing changes and -1 is returned; taken with room for what the move writes, unless it is refused |
| Blob.InsertStaysInsideIff | src/blob.c:125-136 | The end has been raised when the move runs, so the copies stay inside the allocation exactly when there is room for the data and twice the insertion |
| Blob.InsertCanOverrun | src/blob.c:125-136 | Five bytes in a blob of eight and three inserted in front: the result fits, and the move writes eleven bytes |
| Blob.Blob.Delete | src/blob.c:138-149 | The bytes at the cursor are handed out and gone, or nothing changes and -1 is returned |
| Blob.Blob.Seek | src/blob.c:206-218 | The cursor moves to every offset inside the data and to no other |
| Blob.SeekRule | src/blob.c:206-218 | Seeking from the start, from the cursor and from the end |
| Blob.Blob.Index | src/blob.c:220-230 | The least match from the cursor on, or -1 exactly when there is none |
| Blob.Blob.Rindex | src/blob.c:232-242 | The greatest match anywhere, or -1 exactly when there is none |
| Blob.Run | src/blob.c:77-218 | Over every run of operations whose insertions stay inside the allocation `0 <= off <= end <= size` holds and the allocation never shrinks |
| Blob.ApplyKeepsProper | src/blob.c:77-218 | Every single operation, an insertion where it is refused or has the room it needs, keeps the cursor inside the data and the data inside the allocation |
| Blob.DeleteUndoesInsert | src/blob.c:125-149 | Seeking back and deleting undoes an insertion that had its room, and yields what was inserted |
| Blob.InsertUndoesDelete | src/blob.c:125-149 | Inserting what was deleted, where it was and with the room for it, undoes a deletion |
| Blob.ReadsBackWrite | src/blob.c:101-123 | What was written is read back; nothing in front changed and what was behind is still there |
| BlobFormat.BlobPack | src/blob.c:151-196 | Success and the blob that packing leaves, for every format and every pattern of memory failures |
| BlobFormat.BlobUnpack | src/blob.c:151-204 | Success, cursor and everything stored through the pointers |
| BlobFormat.FmtPack | src/blob.c:295-386 | What the callbacks refuse and what they write |
| BlobFormat.EncodeSpells | src/blob.c:295-386 | The bytes written: `%D` and `%H` most significant byte first on every host, `%d` and `%h` as the host has them, each in its width |
| BlobFormat.PackConversion | src/blob.c:151-171 | One conversion: refused for unknown kinds, for a number with a length and for a buffer without one, otherwise its bytes are written and packing goes on |
| BlobFormat.LiteralStands | src/blob.c:172-185 | Any other character of a format stands for its byte, in packing and in unpacking |
| BlobFormat.ReadConversion | src/blob.c:158-168 | A conversion is digits, a star or nothing, and then its kind |
| BlobFormat.UnpackNumber | src/blob.c:295-386 | Of too few bytes `%D` and `%H` fail, the others store what there is and go on |
| BlobFormat.FmtUnpack | src/blob.c:295-386 | What the callbacks store; only `%D` and `%H` notice that bytes are missing |
| BlobFormat.UnpackInvertsPack | src/blob.c:151-204 | After a successful pack, unpacking from where it began with the same format stays inside the data, and succeeds exactly when `char` is unsigned or no literal has its top bit set; then it recovers every argument and ends at the same offset |
| BlobFormat.PackKeepsFront | src/blob.c:151-188 | Packing leaves what is in front of the cursor alone |
| BlobFormat.HostsAgreeIff | src/blob.c:295-386 | A number packed on one host is read on a host of the other byte order exactly for `%D`, `%H` and `%c`, and for `%d` and `%h` when the bytes read the same backwards |
| BlobFormat.DecodeEncode | src/blob.c:295-386 | Numbers of every width and byte order are read back |
| IfCombo.Combo.Add | src/intf-win32.c:93-111 | The pair is appended and all earlier entries stay, across doubling |
| IfCombo.Handle.Refresh | src/intf-win32.c:256-267 | The tables hold, type by type, the pairs of all adapters ever reported, in order |
| IfCombo.Handle.AssignName | src/intf-win32.c:138-148 | The name is the word for the type and the first place of the pair in its table |
| IfCombo.KindOfNumber | src/intf-win32.c:50-122 | Which type number of Windows gets which word and belongs to which interface type |
| IfCombo.FirstNumbers | src/intf-win32.c:93-148 | On the first refresh an adapter whose pair is new gets the number of adapters of its kind that were reported before it |
| IfCombo.OtherWords | src/intf-win32.c:74-91 | Any other word belongs to a type that no adapter has |
| IfCombo.Handle.FindAdapterAddress | src/intf-win32.c:271-289 | The first adapter of the current report with the pair the name selects |
| IfCombo.NameReadsBack | src/intf-win32.c:50-91 | Type and number are read back out of every assigned name |
| IfCombo.NameIsStable | src/intf-win32.c:93-148 | Over every sequence of refreshes an adapter keeps the name it first got |
| IfCombo.NamesAgreeIff | src/intf-win32.c:138-148 | Two adapters share a name exactly when they are of one kind and have the same index pair |
| IfCombo.LookupFindsPair | src/intf-win32.c:271-289 | Looking up the name of any adapter finds the first adapter of the current report with its index pair, whatever the other adapters are |
| IfCombo.LookupFindsIff | src/intf-win32.c:271-289 | It returns the adapter that was given the name exactly when that is the first one of the report with its pair; for an adapter whose pair no other has, exactly when it is reported |
| IfCombo.LookupIgnoresType | src/intf-win32.c:271-289 | Of an Ethernet adapter and a tunnel with one index pair, the name of the tunnel finds the Ethernet adapter |

## Left out

- Sockets, ioctls, sysctl, netlink, `/proc` and Win32 calls of the arp, eth, route, tun and intf modules: input and output only.
- The ARP and route lookups of `ip_send` before the Ethernet header is packed, and the Ethernet header itself: the frame buffer comes with it.
- `connect` and `getsockname` in `_lookup_ip_intf` are an oracle that yields a source address or fails; `eth_open` one that succeeds or not; `eth_send` appends to a trace or fails.
- `gethostbyname` in `addr_pton` is an oracle.
- The firewall converters (src/fw-*.c): they depend on kernel structures that are not in the repository.
- `addr_ntos`, `addr_ston`, `addr_btos`, `addr_stob` and the header packing macros: straight stores whose layout depends on the platform.
- `rand_uint8`, `rand_uint16`, `rand_add` and `rand_close`: they add nothing to the operations modelled; operating-system entropy in `rand_open` is a parameter.
- `fmt_s` (its packer and unpacker do not consume the same bytes), `print_hexl`, `blob_register_alloc` and `blob_register_pack`: a format with `%s` is outside the model, and the allocation unit of a blob is fixed.
- Blobs that were not made by `blob_new` (a size of 0) and buffer sizes near the largest `int`.
- Arguments of a format call that do not match the format, and literals unpacked past the end of the data: undefined in C.
- The rest of python/dnet.c (reference counts, argument parsing, type tables) and `addr.__hash__`, which hashes bytes that comparison ignores.
- The values of `IF_TYPE_*` come from a Windows header that is not part of this model; they are the IANA interface types.
- Ip6Cksum.FindUpper: extension headers are read inside the buffer only, and a chain that ends behind the packet in TCP, UDP, ICMP or IGMP is excluded: the code then goes on with a length that has wrapped around.
- Ip6Cksum.Ip6Checksum: the same chains are excluded.
- AddrCodec.AddrPton: the text of more than 298 characters before a slash or the end, which overruns the temporary buffer, is excluded.
- RandXrange.RandXrangeIter.constructor: takes a range of at most 2^30 integers, because the code shifts an `int`; the key table is read as on a little-endian host, and no property depends on its values.
- RandXrange.CountBits: takes at most 2^30 for the same reason.
- Fragment.IpSend: takes packets that fit the frame buffer of 1518 bytes whole or are cut to an MTU of at most 1504, and a header of at least 20 bytes; the code does not check.
- AddrCodec.AddrNtop: a text that is printed must fit the buffer, as every one does by AddrCodec.TextFits but for IPv4 prefix lengths of four digits and more; the code does not check.
- IpOption.AddOption: takes headers and lengths that lie inside the buffer, an option apart from the packet, and room for the one byte that a type-only option of claimed length 0 takes; the code checks none of this.
- IpCksum.IpChecksum: an unfragmented packet whose header claims more bytes than there are is excluded where its protocol has a checksum: the code then goes on with a length that has wrapped around.
- IfCombo.Handle.FindAdapterAddress: takes names whose number is that of a table entry, if any adapter is reported; the code indexes the table with any number.
- BlobFormat.BlobUnpack: takes formats whose literals end inside the data; the code compares bytes behind it.
- Cksum.IpCksumAdd: the overflow of a signed `int`, undefined in C, is modelled as wrap-around.
- Blob.Blob.Insert: an insertion that is granted is taken with room for what its move writes, and so are the insertions of Blob.Run; the code does not check.
