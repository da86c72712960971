# A verified model of the recursive DNS server

This project models the parts of the server that carry its logic, and proves what they promise:

* the wire codec: the packet buffer with its cursor, the name reader that follows compression
  pointers, the printers that compute RDLENGTH ahead of the bytes, records, questions, whole packets;
* the TTL cache with lazy expiry;
* root server selection: the status machine, the moving average, the selection tiers, and the
  probing thread under the same mutex;
* the resolver: cache check, referral rounds, glue, alias chasing, negative caching;
* the response pipeline of the server, from the bytes of a request to the bytes of the reply.

They compose: `Server.DnsServer.Serve` takes arbitrary received bytes through the parser, the
resolver (over an arbitrary network and clock) and the printer, and every datagram it hands out is
proved to fit the client and to parse back as an answer to the request.

## How the model is built

| file | what it holds |
|---|---|
| `Wire.dfy` | bytes, words, `Parsed` (result and cursor of a read) and `Emission` (bytes and exception of a print) |
| `Names.dfy` | domain names: the reading loop, its meaning without a budget, the printing loop |
| `Buffer.dfy` | class `BytePacketBuffer` over an array |
| `Headers.dfy` | flag word as a bit vector, header codec |
| `Records.dfy`, `Packets.dfy` | records with eight kinds of RDATA, questions, packets, EDNS |
| `Grammar.dfy` | the wire format as relations over bytes, without a parser or printer, and what ties these to it |
| `Cache.dfy` | class `DnsCache`, runs of cache operations, the steady clock |
| `Upstream.dfy` | one exchange with an upstream server |
| `RootServers.dfy` | class `RootServerManager`, runs of its critical sections |
| `Frames.dfy` | what one lookup may do, as a relation, and what follows from it |
| `Lookups.dfy` | what a lookup does, told from the packets it received and nothing the resolver computes |
| `Resolver.dfy` | class `DnsResolver`: `lookup` as methods, each call tied to a valid frame |
| `Scenarios.dfy` | concrete lookups, made of printed and parsed packets, on which what is proved does happen |
| `Server.dfy` | class `DnsServer`: one turn of its loop |

* Objects with identity (buffer, cache, clock, root server manager, resolver, server) are classes
  whose methods update fields.  Packets, headers, records and questions are copied by value in the
  original and are datatypes here.
* An exception is a `Failure` or `Raise` value carrying its class.  Every buffer method says where
  cursor and contents end up in that case too.
* Words are integers with explicit ranges; masks, shifts and casts are written arithmetically, with
  the wrap-around written out (`% 0x1_0000` for the RDLENGTH and count casts, 2^32 for the failure
  counter, 2^64 for the moving average and the fast band limit).  The flag word is a bit vector.
* Names are byte strings, as in the original.  `tolower` is that of the C locale.
* The network is an arbitrary choice of outcomes and bytes (`Upstream.Choose`), the clock an
  arbitrary monotone one, rolls and random indices arbitrary.  What other threads do between two
  critical sections of the root server manager, before every choice and during every exchange, is
  an arbitrary sequence of its critical sections.
* The steady clock counts nanoseconds in a signed 64-bit word, so a round-trip time is at most
  9223372036854 milliseconds (`Upstream.Millis`).
* The recursion of `lookup` has no bound in the original.  Here it carries `fuel`; a call without fuel
  returns the empty packet, which is no response.  All properties hold for every amount of fuel.
* Each function that describes a computation is tied to something that does not mention it: the parser
  and the printer to the relations of `Grammar.dfy`, the cache to the events of a run
  (`Cache.FoundIffLastPut`), keys and glue to bytewise agreement up to letter case
  (`Cache.SameSpelling`), an exchange with a root server to the fields it leaves
  (`RootServers.EndsAs`), a lookup to the packets that arrived (`Lookups.dfy`), and a datagram sent
  to the packet the lookup returned (`Server.GoodDatagram`).
* A `Frame` is the record of one call of `lookup` with all nested calls inside it.  `ValidFrame` ties
  together the cache before and after, the attempts at the root servers, the referral rounds, the
  exchanges and the packet returned.
  The lemmas of `Frames.dfy` hold of every valid frame; `Frames.InsideIsValid` carries them to every depth.

## Where code and expectations differ

* The jump budget of the name reader never rejects a finite chain of pointers
  (`Names.ReadQNameSoundAndComplete`), and pointers may point forwards
  (`Names.ForwardPointerIsFollowed`).
* The name reader's exception speaks of the 255-byte limit (section 2.3.4 of RFC 1035), but it
  checks characters: names of up to 254 characters are accepted, whose labels take up to 256 bytes.
  `Names.OverlongNameIsAccepted` gives such a name, `Names.ReadNameKeepsLimitIff` and
  `Names.ReprintedNameKeepsLimitIff` when the limit is kept: up to 253 characters.
* A name does not always survive re-encoding literally: one trailing dot is lost and the empty name
  becomes `.`.  `Names.Canon` says what is read back, `Names.NameSurvivesIff` when it is the name
  itself, `Names.DotInLabelIsLost` gives a received name that changes, and `Names.PrintableIff` says
  which names print at all.
* `README.md` of the repository says CNAME chains are followed for up to ten hops.  The loop looks for
  the first alias from the start of the answers every time, so all its hops ask for the same name
  (`Frames.HopsAskForTheSameName`); longer chains are followed by the nested lookups only.  There is a
  second hop exactly if the first one found something but nothing of the requested type
  (`Frames.AnotherHopIff`), and while the first hop's answers stay cached there are then all ten, and
  the reply holds the same records ten times (`Frames.HopsRepeat`).  `Scenarios.TenHops` and
  `Scenarios.TwoHops` are such lookups.
* Answers are offered to the cache with the default TTL argument of 60, so they are kept for one
  minute at most (`Frames.StoredLifetime`), and as long as their least TTL allows exactly if that is
  a minute at most (`Frames.AnswersLiveTheirTtlIff`).
* A FAIL server's failure counter is a 32-bit word and can wrap to zero.
  `RootServers.FailedCounterIsPositiveIff` gives the exact condition, `RootServers.FailureCounterWraps`
  an input on which it happens.
* The limit of the fast band is computed in a 64-bit word without an overflow check.  None is needed:
  taken by itself the band is empty, although some server answered, exactly when the limit overflows
  (`RootServers.FastBandNonemptyIff`), but no run of the manager gets there, as no round-trip time is
  that long (`RootServers.FastBandServesSuccess`).
* Nothing in the repository calls `StartProbing`, and the cache, which its `README.md` calls
  thread-safe, has no lock.  The probing steps are modelled; the cache is sequential.

## Model

| member | source | states |
|---|---|---|
| Names.ReadQNameSoundAndComplete | src/BytePacketBuffer.cxx:96-168 | for any bytes: a name is returned exactly when a finite chain of labels and pointers leads to a zero byte and spells at most 254 characters; the name is that chain's text, the cursor just past its first pointer or its zero |
| Names.FewerPointersThanBytes | src/BytePacketBuffer.cxx:122-123 | a finite chain goes through fewer pointers than there are bytes, so the loop check rejects only infinite ones |
| Names.ChainUnique | src/BytePacketBuffer.cxx:103-160 | the next cursor depends only on the current one: a position starts at most one chain |
| Names.ReadQNameCursor | src/BytePacketBuffer.cxx:116-159 | on success and on every exception the cursor stays between its start and the length, and moves on success |
| Names.TargetIsBits | src/BytePacketBuffer.cxx:109-136 | the tag tests and pointer offset written arithmetically are the masks and shifts of the code |
| Names.PrintedNameReadsBack | src/BytePacketBuffer.cxx:212-247 | a printed name reads back, up to `Canon`, at any position and whatever surrounds it |
| Names.PrintableIff | src/BytePacketBuffer.cxx:212-247 | exactly the root and the dotted lists of 1 to 63 byte labels print, as length-prefixed labels and a zero |
| Names.WireLengthIsExact | src/DnsRecord.cxx:9-22 | the length computed ahead is the number of bytes the printing loop writes, or an exception if it exceeds 16 bits |
| Names.ForwardPointerIsFollowed | src/BytePacketBuffer.cxx:109-126 | a pointer to a later position is followed |
| Names.ReadNameKeepsLimitIff | src/BytePacketBuffer.cxx:153-156 | the labels of an accepted name take at most 256 bytes, and 255 or fewer exactly if the name has at most 253 characters |
| Names.ReprintedNameKeepsLimitIff | src/BytePacketBuffer.cxx:153-156 | a name that was read prints into at most 255 bytes exactly if it has at most 253 characters, a trailing dot not counted |
| Names.OverlongNameIsAccepted | src/BytePacketBuffer.cxx:153-156 | a name of 254 characters, 256 bytes on the wire, that the reader accepts |
| Names.NameSurvivesIff | src/BytePacketBuffer.cxx:212-247 | a printed name reads back as it was exactly if it is the root or does not end in a dot |
| Names.DotInLabelIsLost | src/BytePacketBuffer.cxx:212-247 | a name that is read with a dot at the end of its label and printed without it |
| Wire.WordIsBits | src/BytePacketBuffer.cxx:66-71 | putting two bytes together arithmetically is the shift and or of the code |
| Buffer.BytePacketBuffer.constructor | src/BytePacketBuffer.cxx:32-33 | an empty buffer with the capacity capped at 1232 |
| Buffer.BytePacketBuffer.SetMaxCapacity | src/BytePacketBuffer.cxx:49-52 | the capacity never exceeds 1232 |
| Buffer.BytePacketBuffer.ReadU8 | src/BytePacketBuffer.cxx:54-58 | the byte at the cursor, or OutOfRange with the cursor unmoved; the invariant pos <= len <= 1232 is kept |
| Buffer.BytePacketBuffer.Get | src/BytePacketBuffer.cxx:60-64 | the byte at the cursor without moving it |
| Buffer.BytePacketBuffer.ReadU16 | src/BytePacketBuffer.cxx:66-71 | a big-endian word, with the cursor where the byte reads leave it, also on an exception |
| Buffer.BytePacketBuffer.ReadU32 | src/BytePacketBuffer.cxx:73-79 | the same for 32 bits |
| Buffer.BytePacketBuffer.Step | src/BytePacketBuffer.cxx:81-85 | the cursor moves on by the steps only if they stay within the length |
| Buffer.BytePacketBuffer.Seek | src/BytePacketBuffer.cxx:87-94 | the cursor moves only to positions within the length |
| Buffer.BytePacketBuffer.ReadQName | src/BytePacketBuffer.cxx:96-168 | the loop ends by the measure (len - jumps, len - cursor) and computes the name and cursor that ReadQNameSoundAndComplete characterises |
| Buffer.BytePacketBuffer.AppendLabel | src/BytePacketBuffer.cxx:145-149 | the inner loop appends a dot and exactly the bytes of the label |
| Buffer.BytePacketBuffer.ReadBytes | src/BytePacketBuffer.cxx:170-177 | the requested bytes, or OutOfRange with the cursor unmoved |
| Buffer.BytePacketBuffer.WriteU8 | src/BytePacketBuffer.cxx:189-198 | writes below the capacity only and extends the length, otherwise LengthError with nothing changed |
| Buffer.BytePacketBuffer.WriteU16 | src/BytePacketBuffer.cxx:200-204 | writes the two bytes, or as many as there is room for before LengthError |
| Buffer.BytePacketBuffer.WriteU32 | src/BytePacketBuffer.cxx:206-210 | the same for four bytes |
| Buffer.BytePacketBuffer.WriteQName | src/BytePacketBuffer.cxx:212-247 | the loop prints the labels and the zero, and on a bad label or a full buffer leaves exactly what came before it |
| Buffer.BytePacketBuffer.SetLength | src/BytePacketBuffer.cxx:259-268 | sets the length up to 1232 and rewinds, otherwise changes nothing |
| Buffer.PrintInSequence | src/BytePacketBuffer.cxx:189-210 | printing one thing after another is printing their concatenation, with the same contents and exception at every point of failure |
| Headers.AnsweringAnswers | src/DnsResolver.cxx:133-140 | after the setters the header has the query's ID and RD bit, QR and RA set, AA clear, and its result code and counts as before |
| Headers.SetResultCodeSticks | src/DnsHeader.cxx:87-90 | setting a result code gives that code and leaves the flags alone |
| Headers.FlagsStandWhereTheyShould | src/DnsHeader.cxx:14-37 | QR is bit 15, AA bit 10, RD bit 8, RA bit 7, and the result codes are the numbers 0 to 5 in the low four bits |
| Headers.OtherFlagsStay | src/DnsHeader.cxx:55-90 | the setters change their own bits and no others |
| Headers.PrintedHeaderReadsBack | src/DnsHeader.cxx:106-114 | a printed header reads back bit for bit |
| Headers.Read | src/DnsHeader.cxx:4-12 | reads six words in order |
| Headers.Write | src/DnsHeader.cxx:106-114 | prints six words in order |
| Records.DeclaredLengthIsPayloadLength | src/DnsRecord.cxx:195-253 | for all eight variants the declared RDLENGTH is the payload length modulo 2^16, hence right exactly when the payload has fewer than 2^16 bytes |
| Records.RdLengthMatchesWhenItFits | src/DnsRecord.cxx:195-253 | whenever the RDATA fits the buffer, the RDLENGTH in the buffer is the number of bytes after it |
| Records.PrintedDataReadsBack | src/DnsRecord.cxx:56-135 | printed RDATA of each variant reads back |
| Records.PrintedRecordReadsBack | src/DnsRecord.cxx:41-149 | a printed record reads back, up to `Canon` and RDLENGTH, wherever it stands |
| Records.ParsedRecordIsWellFormed | src/DnsRecord.cxx:41-149 | an accepted record has the variant of its type, OPT fields agreeing with class and TTL, printable-length names, and took at least eleven bytes |
| Records.OctetsRoundTrip | src/IPv4Address.cxx:26-40 | an address survives the conversion to a 32-bit word and back |
| Records.AddressIff | include/DnsRecord.hpp:102-113 | the address of a record is that of an A or AAAA record, and other records have none |
| Records.Read | src/DnsRecord.cxx:41-149 | parses a record, with the length checks and cursor of the original; Grammar.RecordIff says which bytes it accepts, and as what |
| Records.ReadRData | src/DnsRecord.cxx:56-135 | the switch over the record type; Grammar.DataIff says what the data read for each type is |
| Records.WriteData | src/DnsRecord.cxx:195-253 | prints RDLENGTH and RDATA; on normal return the RDLENGTH in the buffer counts the bytes after it |
| Records.Write | src/DnsRecord.cxx:255-264 | prints a record |
| Packets.EdnsComesFromFirstOpt | src/DnsPacket.cxx:94-107 | EDNS information is there exactly if some additional record is OPT, and it is the DO bit, the version and the size, clamped to 512..1232, of the first one |
| Packets.OptRecordWellFormed | include/DnsPacket.hpp:58-70 | the fields packed into class and TTL unpack to themselves |
| Packets.PrintedCounts | src/DnsPacket.cxx:64-91 | a packet of n records prints into at least 12+11n bytes, and below 64 KiB no count is truncated |
| Packets.PrintedPacketIsBounded | src/DnsPacket.cxx:64-91 | a packet that was printed into a fresh buffer has at most 110 records and honest counts |
| Packets.ParsedPacketIsWellFormed | src/DnsPacket.cxx:5-34 | whatever was parsed is well formed, its counts are its section sizes, and it has at most 110 records whatever counts were declared |
| Packets.PrintedPacketReadsBack | src/DnsPacket.cxx:64-91 | a printed packet reads back, up to `CanonPacket`, wherever it stands |
| Packets.PrintThenParse | src/DnsPacket.cxx:64-91 | every well-formed packet that fits a fresh buffer comes back when parsed |
| Packets.ReencodingPreservesMeaning | src/DnsPacket.cxx:5-34 | parsing any bytes, compressed or not, printing and parsing again gives the same packet, up to `Canon` on names and RDLENGTH |
| Packets.ReadSection | src/DnsPacket.cxx:18-30 | the section loop reads as many records as declared, or stops at the first that fails |
| Packets.Read | src/DnsPacket.cxx:5-34 | parses a packet and refuses more than one question |
| Packets.Write | src/DnsPacket.cxx:64-91 | resynchronises the counts and prints the packet |
| Packets.ReadQuestionFrom | src/DnsQuestion.cxx:20-27 | parses a question |
| Packets.WriteQuestion | src/DnsQuestion.cxx:33-37 | prints a question |
| Grammar.WordsAreBigEndian | src/BytePacketBuffer.cxx:66-79 | 16 and 32 bit words are the sums of their bytes, the first one the highest, wherever there are enough bytes |
| Grammar.NameIff | src/BytePacketBuffer.cxx:96-168 | a name and a cursor are read exactly if a chain that spells it stands there and ends there |
| Grammar.DataIff | src/DnsRecord.cxx:56-135 | the data read for each of the eight variants is what stands in the bytes: address bytes, names at the end of their chains (compressed or not), words, timers, the OPT fields in class and TTL, raw bytes; and data that does not fill its length is not accepted |
| Grammar.RecordIff | src/DnsRecord.cxx:41-149 | a record is accepted exactly if it stands in the bytes: owner, type, class, TTL, length, and such data of that length |
| Grammar.HeaderIff | src/DnsHeader.cxx:4-12 | a header is its six words in the order of the standard |
| Grammar.QuestionIff | src/DnsQuestion.cxx:20-27 | a question is a name, a type and a class |
| Grammar.PacketIff | src/DnsPacket.cxx:5-34 | a packet is accepted exactly if it stands in the bytes: header, at most one question, three sections of the declared sizes, one after the other |
| Grammar.CanonIsSamePacket | src/DnsPacket.cxx:64-91 | what a printed packet reads back as differs from it in the last dot of names, in RDLENGTHs and in counts only |
| Grammar.PrintedPacketStands | src/DnsPacket.cxx:64-91 | what is printed of a well-formed packet is that packet in the wire format, wherever it stands |
| Grammar.RecordPrintsIff | src/DnsRecord.cxx:195-264 | a record prints exactly if its owner and the names in its data do and their length fits 16 bits |
| Grammar.PacketPrintsIff | src/DnsPacket.cxx:64-91 | a packet prints exactly if its question's name and all its records do |
| Cache.Normalize | include/DnsCache.hpp:80-87 | capital letters become small ones, 32 above them, and every other byte stays |
| Cache.MakeKey | include/DnsCache.hpp:71-72 | the key is the normalised name with the type |
| Cache.SameKeyUpToCase | include/DnsCache.hpp:71-77 | two keys are equal exactly when the types are and the names agree byte by byte up to letter case |
| Cache.EqualsIgnoreCaseIff | src/DnsResolver.cxx:18-27 | names are compared byte by byte up to letter case |
| Cache.MinTtlIsLeast | src/DnsCache.cxx:22-29 | the TTL computed is the least of the argument (60 for zero) and the nonzero record TTLs |
| Cache.LazyRefinesEager | src/DnsCache.cxx:46-64 | in every run under a monotone clock each get and contains answers as a map that purges expired entries at every tick |
| Cache.RunInvariants | src/DnsCache.cxx:3-79 | in every run positive entries are never empty, and hits plus misses is the number of get and contains calls |
| Cache.FoundIffLastPut | src/DnsCache.cxx:3-79 | in every run a key is found exactly if the last entry put under it was not removed or cleared since and has not expired, and what is found is what that put was given |
| Cache.HitsAreAnswered | src/DnsCache.cxx:46-64 | in every run hits counts the lookups that found something |
| Cache.ServedWithinTtl | src/DnsCache.cxx:16-43 | in every run what is served was stored under that key earlier, and is served no later than its TTL argument nor any nonzero TTL of its records |
| Cache.MadeEntriesLiveASecond | src/DnsCache.cxx:16-43 | entries made by the TTL overloads live at least one second |
| Cache.DnsCache.PutEntry | src/DnsCache.cxx:3-14 | stores unless the entry is expired or positive and empty |
| Cache.DnsCache.PutRecords | src/DnsCache.cxx:16-31 | the minimum loop, and the entry made with it |
| Cache.DnsCache.PutRecord | src/DnsCache.cxx:33-37 | one record, kept for its TTL or 60 seconds |
| Cache.DnsCache.PutNegative | src/DnsCache.cxx:39-43 | a negative entry, kept for its TTL or 60 seconds |
| Cache.DnsCache.Get | src/DnsCache.cxx:46-64 | answers an unexpired entry, erases an expired one, and counts |
| Cache.DnsCache.Contains | src/DnsCache.cxx:71-74 | whether get would answer, with its effects |
| Cache.DnsCache.Remove | src/DnsCache.cxx:66-69 | erases one key |
| Cache.DnsCache.Clear | src/DnsCache.cxx:76-79 | erases every key and keeps the counters |
| RootServers.StatusTellsHistory | src/RootServerManager.cxx:155-252 | under every interleaving of lookups and probes: UNKNOWN exactly for untouched servers (no SRTT, no failures), SUCCESS after an answer, FAIL after failures, counted modulo 2^32 |
| RootServers.FailedCounterIsPositiveIff | src/RootServerManager.cxx:155-170 | a FAIL server's counter is positive exactly when its failures since the last answer are no multiple of 2^32 |
| RootServers.FailureCounterWraps | src/RootServerManager.cxx:155-170 | 2^32 failures in a row leave a FAIL server with counter zero |
| RootServers.NeverUnknownAgain | src/RootServerManager.cxx:155-252 | no server returns to UNKNOWN or changes its address |
| RootServers.AverageIsBounded | src/RootServerManager.cxx:15-24 | after any samples the average lies between the least and the greatest, if eight times the greatest fits the word |
| RootServers.AverageConverges | src/RootServerManager.cxx:15-24 | under a repeated sample m the average is in [m-7, m] from \|srtt-m\| steps on |
| RootServers.SrttIsAverage | src/RootServerManager.cxx:240-250 | in every run a server's SRTT is the average of exactly its own answers, in order |
| RootServers.SrttIsBounded | src/RootServerManager.cxx:15-24 | in every run it lies between the least and the greatest round-trip time of that server: the arithmetic cannot wrap |
| RootServers.SrttConverges | src/RootServerManager.cxx:15-24 | in every run, once a server only answers in m milliseconds, its SRTT is in [m-7, m] from \|srtt-m\| more answers on, whatever others do |
| RootServers.BandsPartition | src/RootServerManager.cxx:387-410 | fast and slow band partition the SUCCESS servers |
| RootServers.FastBandNonemptyIff | src/RootServerManager.cxx:374-410 | the fast band is nonempty exactly when some server answered and the limit does not overflow |
| RootServers.FastBandServesSuccess | src/RootServerManager.cxx:387-410 | in every run the fast band has a server exactly if some server answered last: the limit never overflows |
| RootServers.SelectedCategoryHasServer | src/RootServerManager.cxx:70-91 | in every run the category selected has a server unless it is the slow band or every server is FAIL, and without a server that answered the slow band means every server is FAIL |
| RootServers.FastBandIff | src/RootServerManager.cxx:387-410 | in every run the fast band holds the SUCCESS servers at most a quarter slower than the fastest one, the slow band the other SUCCESS servers, and the third category the UNKNOWN ones |
| RootServers.ChosenFromFirstTier | src/RootServerManager.cxx:102-149 | an untried server of the category that statuses and roll call for is preferred to all others, and one that is not FAIL to one that is |
| RootServers.NoAddressTwice | src/RootServerManager.cxx:93-151 | within one call no address is tried twice |
| RootServers.FailedOnlyAsLastResort | src/RootServerManager.cxx:109-138 | a FAIL server is chosen only when every non-FAIL address of that moment was tried |
| RootServers.AttemptEndsAs | src/RootServerManager.cxx:153-252 | a response to the query leaves the server asked SUCCESS, with no failures and its SRTT moved an eighth towards the measurement; no socket, no reply or a useless one leaves it FAIL with one failure more; a reply from elsewhere or a query that does not print changes nothing; no other server is touched |
| RootServers.LoggedAttemptEndsAs | src/RootServerManager.cxx:93-256 | so it is for every attempt of a call, and the next choice starts from there |
| RootServers.ResponseIsTheFirst | src/RootServerManager.cxx:229-247 | the response returned is what the last exchange brought, and no exchange before it brought one |
| RootServers.GivesUpAfterFive | src/RootServerManager.cxx:93-98 | without a response there were five attempts, or every address was tried, and none brought a response |
| RootServers.RootServerManager.constructor | src/RootServerManager.cxx:42-49 | the configured addresses, in order, all UNKNOWN |
| RootServers.RootServerManager.SelectCategory | src/RootServerManager.cxx:70-91 | UNTESTED only if a server is untested, and always if none answered last besides; otherwise a band, the slow one for rolls up to 20; SelectedCategoryHasServer says what that means for the choice |
| RootServers.RootServerManager.GetLeastSRTT | src/RootServerManager.cxx:374-385 | the least SRTT of the SUCCESS servers, or the greatest word |
| RootServers.RootServerManager.GetCandidates | src/RootServerManager.cxx:387-410 | exactly the servers of the category |
| RootServers.RootServerManager.RemoveTried | src/RootServerManager.cxx:109-113 | exactly the candidates not tried yet |
| RootServers.RootServerManager.UntriedServers | src/RootServerManager.cxx:116-138 | exactly the untried servers of a fallback tier |
| RootServers.RootServerManager.Select | src/RootServerManager.cxx:102-149 | picks from the first tier that has an untried server, and gives up only when every address was tried |
| RootServers.RootServerManager.Try | src/RootServerManager.cxx:153-252 | one exchange: the response it brought, if any, and the fields of the servers it leaves |
| RootServers.RootServerManager.AskRootServer | src/RootServerManager.cxx:93-256 | every choice is eligible on the state it was made on, whatever other threads did before it and during each exchange, and the log accounts for every change to the servers; it ends with the first response, or after min(5, number of distinct addresses) attempts |
| RootServers.ProbeQueryPrints | src/RootServerManager.cxx:310-317 | the probe query always fits, so the probing thread cannot throw there |
| RootServers.ProbeCounts | src/RootServerManager.cxx:351-370 | a probe answered by a response with its ID leaves the server SUCCESS, with no failures and a new SRTT; any other changes nothing |
| RootServers.RootServerManager.ProbeFailedServers | src/RootServerManager.cxx:286-372 | exactly the servers that are FAIL when their turn comes are probed, and those that answer are marked |
| RootServers.RootServerManager.ProbeServer | src/RootServerManager.cxx:303-370 | one probe, and the fields of the servers it leaves |
| Upstream.ResponseToIsWellFormed | src/DnsResolver.cxx:115-128 | a response taken from the network is well formed, has QR set and the query's ID |
| Upstream.ResponseToIff | src/DnsResolver.cxx:115-128 | a packet is taken from an exchange exactly if the query could be sent and the bytes received are that packet, with QR set and the query's ID |
| Upstream.RequestAsks | src/DnsResolver.cxx:57-74 | what is sent upstream asks the client's question under the client's ID, with QR and RD clear, and has one OPT record of 1232 bytes and nothing else |
| Upstream.Decode | src/DnsResolver.cxx:115-118 | parses received bytes in a fresh buffer |
| Upstream.Encode | src/DnsResolver.cxx:66-74 | prints into a fresh buffer, exactly if the bytes fit its capacity |
| Frames.NegativeTtlIsLeast | src/DnsResolver.cxx:29-53 | the least nonzero of TTL and MINIMUM of the first SOA, or 60 |
| Frames.ResponseAnswersQuery | src/DnsResolver.cxx:131-147 | on every path and at every depth, a packet returned with QR set has the query's ID and RD bit, RA set, AA clear, and a question |
| Frames.CachedResponseAnswers | src/DnsResolver.cxx:190-211 | so does the response made from a cache entry, with the result code of the entry |
| Frames.FailuresStoreNothing | src/DnsResolver.cxx:222-290 | after a non-response, an error other than NXDOMAIN, or sixteen rounds used up, an entry under the question's key can only come from a lookup of the same question nested inside, and without one there is none |
| Frames.NoServerQueriedTwice | src/DnsResolver.cxx:368-376 | no address is queried twice over all rounds of a lookup |
| Frames.RoundsAreBounded | src/DnsResolver.cxx:220-397 | at most sixteen rounds, and every completed one queried a fresh address |
| Frames.QueriedAddressOrigin | src/DnsResolver.cxx:301-358 | a queried address is glue of the response, or, only if there is no glue, was found by a nested lookup of one of its name servers |
| Frames.ChasingOnlyAppends | src/DnsResolver.cxx:227-279 | upstream answers stay a prefix, at most ten hops, none once the requested type is there, and the list cached is the list returned |
| Frames.HopsAskForTheSameName | src/DnsResolver.cxx:247-263 | all hops of one lookup ask for the target of the first alias |
| Frames.FirstHopIff | src/DnsResolver.cxx:230-261 | there is a first hop exactly if the question is not for a CNAME and the answers hold an alias but nothing of the requested type |
| Frames.AnotherHopIff | src/DnsResolver.cxx:233-274 | after a hop there is another one exactly if it found something but nothing of the requested type is there yet |
| Frames.HopsRepeat | src/DnsResolver.cxx:233-274 | while the entry of the first hop lives there is one hop or all ten, by that same test; the later ones are answered from the cache, and the reply holds what the first one found as many times |
| Frames.LookupAndCacheAgree | src/DnsResolver.cxx:187-212 | after a lookup that stored an entry, the same question in any letter case before expiry gives exactly the same answers, and the same result code if there are none |
| Frames.StoredEntryMatchesResponse | src/DnsResolver.cxx:277-298 | the entry a lookup stores is the response it returns |
| Frames.EntryOrigin | src/DnsResolver.cxx:277-396 | whatever is cached after a lookup was there before or was stored by a lookup of exactly that question inside it |
| Frames.InnerOrigin | src/DnsResolver.cxx:187-212 | what a lookup at any depth finds in the cache was there before the outermost one, or was stored by a lookup of exactly that question inside it |
| Frames.ServedFromLookup | src/DnsResolver.cxx:187-212 | in any sequence of lookups from an empty cache, whatever one at any depth is answered from the cache is the answer list, or the negative code, of an earlier lookup of the same question in any letter case, and is served within its lifetime |
| Frames.StoredLifetime | src/DnsResolver.cxx:277-396 | answers are kept for a minute at most, negative answers for the negative TTL, all for a second at least |
| Frames.AnswersLiveTheirTtlIff | src/DnsCache.cxx:22-31 | stored answers live exactly as long as their least nonzero TTL if and only if that is a minute at most |
| Frames.InsideIsValid | src/DnsResolver.cxx:263-349 | every nested lookup, at any depth, is a valid one |
| Lookups.OnlyLastReplyIsUsable | src/DnsResolver.cxx:368-388 | in a round, no reply before the last one is a response with records or an error code |
| Lookups.UsableReplyIsTaken | src/DnsResolver.cxx:379-388 | a reply with answers, authorities, additionals or an error code ends its round, and is the response the next round starts from, or the last response seen |
| Lookups.RoundStartsFromReferral | src/DnsResolver.cxx:220-299 | every round starts from a response without answers and error but with other records: that of the roots, or the reply that ended the round before |
| Lookups.SilentRoundAskedAll | src/DnsResolver.cxx:368-396 | when all stay silent, every candidate was asked, in this round or an earlier one |
| Lookups.EndingIsThatOfTheResponse | src/DnsResolver.cxx:220-399 | how a lookup ends follows from the replies of its last round, the number of rounds, and QR bit, sections and result code of the last response |
| Lookups.ReturnsWhatItSaw | src/DnsResolver.cxx:131-147 | the packet returned has result code, authorities and additionals of the last response, its question or else the client's, and its answers with those of aliases appended |
| Lookups.OutcomeIsStored | src/DnsResolver.cxx:277-396 | exactly what is returned is stored under the question: answers for the least of their TTLs and a minute, NXDOMAIN or NODATA for the negative TTL, and nothing for other errors, non-responses and sixteen rounds |
| Lookups.NsNamesInOrder | src/DnsResolver.cxx:301-309 | the name servers collected are those of the NS records, all of them and in order |
| Lookups.CandidatesAreTheServers | src/DnsResolver.cxx:311-364 | the candidates of a round are exactly the addresses of additional records that name servers of the response own, or without any the addresses that nested lookups found |
| Lookups.EveryServerIsLookedUp | src/DnsResolver.cxx:336-358 | without glue each name server is looked up for A and then for AAAA |
| Lookups.GlueIsAskedInOrder | src/DnsResolver.cxx:320-333 | glue becomes a candidate in the order of the NS records, and for each in the order of the additional records |
| Lookups.CandidatesAreAskedInOrder | src/DnsResolver.cxx:369-377 | a candidate is asked only after those before it |
| Lookups.ReplyWasReceived | src/DnsResolver.cxx:378 | a reply is what the exchange with the server at that place brought, and no response if it brought none |
| Lookups.LastResponseWasReceived | src/DnsResolver.cxx:214-397 | the response a lookup returns arrived in one of its own exchanges |
| Lookups.CacheHitReturnsEntry | src/DnsResolver.cxx:187-212 | an answer from the cache is the client's question with the records or NXDOMAIN of an unexpired entry, and nothing else |
| Lookups.AliasIsTheFirst | src/DnsResolver.cxx:247-261 | the alias followed is the first CNAME record among the answers |
| Lookups.AnswersAreJoined | src/DnsResolver.cxx:269-273 | the answers returned are those of the last response and after them those of each hop, in order, and nothing else |
| Scenarios.LookupsExist | src/DnsResolver.cxx:176-400 | for every question that can be asked there is a lookup that stores its result and a second one that the cache answers |
| Scenarios.TwoHops | src/DnsResolver.cxx:227-280 | a lookup with a referral round whose alias chasing makes a second hop for the same name, and finds the address with it |
| Scenarios.TenHops | src/DnsResolver.cxx:227-280 | a lookup with a referral round that makes all ten hops and returns the same record ten times |
| Resolver.DnsResolver.Lookup | src/DnsResolver.cxx:176-400 | every call, for every network, clock and fuel, is a valid frame from the old cache to the new one, and returns a packet of well-formed records that reads back if it prints |
| Resolver.DnsResolver.LookupName | src/DnsResolver.cxx:152-174 | a lookup of exactly that name and type |
| Resolver.DnsResolver.FollowReferrals | src/DnsResolver.cxx:216-400 | the referral loop, sixteen rounds at most |
| Resolver.DnsResolver.ReferralRound | src/DnsResolver.cxx:301-396 | candidates, queries, and negative caching when no server is left |
| Resolver.DnsResolver.Finish | src/DnsResolver.cxx:222-299 | the endings at the top of a round, each caching what it should |
| Resolver.DnsResolver.Answer | src/DnsResolver.cxx:227-280 | alias chasing, then the same list to the cache and the caller |
| Resolver.DnsResolver.ChaseAliases | src/DnsResolver.cxx:233-274 | the hop loop and the reason it stops |
| Resolver.DnsResolver.FindAlias | src/DnsResolver.cxx:248-256 | the first alias among the answers |
| Resolver.DnsResolver.ExtractNegativeTtl | src/DnsResolver.cxx:29-53 | the search for the first SOA |
| Resolver.DnsResolver.ResolveNameServers | src/DnsResolver.cxx:336-358 | both address types of every name server are looked up, in order, and every address found is a candidate |
| Resolver.CollectNsNames | src/DnsResolver.cxx:301-309 | the name servers of the authority section |
| Resolver.CollectGlue | src/DnsResolver.cxx:311-333 | exactly the glue of the response, without duplicates, in the order it stands |
| Resolver.QueryNameServer | src/DnsResolver.cxx:55-129 | the response the exchange with that server amounts to, or the empty packet |
| Resolver.QueryCandidates | src/DnsResolver.cxx:368-388 | the fresh candidates in order, up to the first accepted reply |
| Server.PreparedAnswers | src/DnsServer.cxx:180-218 | whatever the lookup returned, the packet printed answers the request and carries one OPT record exactly if the request did |
| Server.PreparedIsReply | src/DnsServer.cxx:177-218 | the packet printed carries the question, result code, answers, authorities and other additional records of what the lookup found, or SERVFAIL for the client's question and no records if that was no response with a question; and one OPT record echoing the client's, or none |
| Server.StripOptKeepsOthers | src/DnsServer.cxx:202-209 | stripping keeps all records that are not OPT, in order |
| Server.ReplyIsSentIfItFits | src/DnsServer.cxx:220-231 | a datagram is sent exactly if that packet prints within what the client takes |
| Server.StrippedHasNoOpt | src/DnsServer.cxx:202-209 | stripping removes the OPT records and nothing else |
| Server.ServerFailureAnswers | src/DnsServer.cxx:35-50 | the failure packet answers the request with SERVFAIL |
| Server.CapacityBounds | src/DnsServer.cxx:220-221 | the reply capacity is 512 without EDNS, and with it the size of the client's first OPT record, clamped to 512..1232 |
| Server.DatagramIsGood | src/DnsServer.cxx:166-228 | every datagram sent is no longer than the client's first OPT record allows (512 without one) and parses back with QR=1, AA=0, RA=1, the request's ID and RD bit, honest counts, the question, result code, answers, authorities and other additional records that the lookup found (or SERVFAIL and none), and one OPT record exactly if the client sent one, with the agreed size and the client's DO bit |
| Server.DnsServer.RemoveOpt | src/DnsServer.cxx:203-209 | the erase loop keeps every record that is not OPT, in order |
| Server.DnsServer.Serve | src/DnsServer.cxx:166-234 | nothing is sent for malformed datagrams, responses or packets without question; otherwise the reply is sent exactly if it fits, and carries what a valid lookup found |

## Left out

* Sockets, `poll`, `sendto` and `recvfrom`, and the endless server loop: an exchange is an arbitrary outcome, and `Serve` is one turn of the loop.
* `CSVReader`, `main`, logging, all `print` functions and the text forms of addresses: input, output and library code. The manager's constructor takes the addresses; the original throws when there are none.
* The buffer constructors that copy bytes: the server only fills a buffer by receiving into it, which `Upstream.Receive` models.
* Probabilities of the 10/20/70 split of the category roll: any roll may come up.
* Thread creation, stop tokens, condition variables and the five-second wait of the probing thread.
* The hash function and the iteration order of the cache: it is a map from normalised keys.
* `lookup` with EDNS information of its own: no caller passes any.
* Termination of the recursion of `lookup`: the original has no bound on its depth, so none is claimed.
* Agreement of an upstream answer's question with the query, full RFC 2308 compliance and TTL decrementing: the code does not provide them. Cached records are served with the TTL they came with.
* RootServers.RootServerManager.ProbeFailedServers: does not say when a round of probing starts, because the timer that starts it is left out.
