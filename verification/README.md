# A small DNS server, verified

A Dafny model of a DNS server written in C, and proofs about it. The server reads zones into a trie
of labels, answers names from it, keeps answers in a hash table whose entries run out, forwards
other names to an upstream server over UDP, and hands its clients to a pool of worker threads.

| file | what it models |
|---|---|
| `Bytes.dfy`, `Names.dfy` | bytes and 16- and 32-bit words; names as labels, as dotted text and on the wire |
| `NameReader.dfy` | `dns_read_name` and `util_measure_name`, and what a compressed name means |
| `NameWriter.dfy` | `dns_encode_name`, and the round trip through the reader |
| `Messages.dfy` | the header, the parsers, the serialiser, queries |
| `Responder.dfy` | the second decoder and the compressed response of `handle_dns_query` |
| `ResponseWait.dfy` | the loop that waits for a response, and a whole exchange |
| `Words.dfy`, `Trie.dfy` | the splitter, the trie, its construction from zones, and its walk |
| `CacheTable.dfy`, `Cache.dfy` | the cache as a map, and as 100 chains of linked nodes on the heap |
| `Redirects.dfy`, `Pigeonhole.dfy` | redirects to name servers: when the recursion ends |
| `Resolver.dfy`, `Server.dfy` | one request, and every run of requests: on values, and on the heap |
| `Zones.dfy` | the same, read off the data of the zones |
| `PoolRing.dfy`, `PoolProtocol.dfy` | the circular queue, and the pool as a transition system |

Code that loops and writes is a method, proved against a function; the theorems are then about the
function. The reader of names is a small machine (`Step`, `Run`); `ReadName` computes what that
machine ends with. The cache is real nodes with `next` links; `CleanUp`, `LookupEntry` and
`AddEntry` change the nodes, and their contracts tie them to `Sweep`, `Lookup` and `Add` on a map.
`Server.Serve` runs requests over those nodes, and its replies are those of `Resolver.ReplyTo`, of
which the theorems about whole runs speak. The clock, `rand`, datagrams and upstream answers are
inputs, quantified over; so is the scheduler of the pool.

What the proofs show about the code as it stands:

- `dns_read_name` has no limit on jumps. Inside a buffer it hangs exactly when it meets pointers that
  lead back to the first of them (`HangsExactlyOnPointerCycle`); pointers that go strictly backward,
  as section 4.1.4 of RFC 1035 demands, always let it finish (`BackwardSettles`).
- The codec does not enforce the 63-byte limit of RFC 1035 section 2.3.4. A name survives the trip
  exactly when its labels have 1 to 191 bytes and one byte is left over in the destination
  (`RoundTripExactly`). The empty name and a trailing dot do not survive.
- Branches are not merged, the walk never goes back, and every later node of a branch is hung under
  the first. So of two zones with the same last label the second is out of reach (`SharedTldHides`),
  and so are the full names in a zone of three or more labels (`DeepZoneHidden`): such a zone answers
  at its first label directly under its last one, unless a middle label equals the first
  (`BranchAnswers`). `HostsResolveExactly` gives the exact condition for every list of zones. The
  zones the repository ships have two labels and different last labels.
- Some queries make the walk follow a pointer that was never set: the bare last label of a zone that
  has a second one, a middle label of a longer zone directly under the last (`MiddleLabelUnset`), and
  `@` under a zone. For any zones these are the only such queries with a word in them
  (`UndefinedExactly`).
- A redirect that leads back to a name already met makes `retriveValue` recurse for ever;
  `EndsExactlyWithoutCycle` and, on zone data, `NameEndsExactly` say exactly when that happens, and
  `LoopingZone` shows a case.
- `addTaskToThreadPool` still accepts tasks after the pool was stopped. They stay in the queue
  (`ShutdownCompletes`).
- `addCacheEntry` leaves an entry that is already there alone, even one whose time has run out since
  the lookup; with a clock that never goes back no reply shows it (`SlidingExpiry`).

## Model

| member | source | states |
|---|---|---|
| NameReader.ReadName | DNS_server/dns_packet.c:36-83 | the C loop over a byte array ends as the machine does: -1 with the labels copied so far, or the next offset with the dotted text and its NUL in the destination and every other byte untouched |
| NameReader.MeasureName | DNS_server/dns_packet.c:17-33 | the measuring loop returns the bytes a name occupies where it stands |
| NameReader.OutcomeIs | DNS_server/dns_packet.c:43-82 | how a read ends does not depend on when one looks |
| NameReader.MeasureAgrees | DNS_server/dns_packet.c:17-83 | whenever the reader succeeds its result is the offset plus the measured length, modulo 2^16, for plain and compressed names and any number of jumps |
| NameReader.BackwardSettles | DNS_server/dns_packet.c:43-72 | with strictly backward pointers the loop ends in every buffer that reaches index offset + max_len, and the position never exceeds offset + dest_offset |
| NameReader.BackwardSettlesFrom | DNS_server/dns_packet.c:43-72 | termination by the lexicographic measure (room left in the destination, read position), even when a pointer goes back into the name's own labels |
| NameReader.EndBound | DNS_server/dns_packet.c:46-49 | with backward pointers the returned offset is at most offset + max_len + 1 |
| NameReader.HangsExactlyOnPointerCycle | DNS_server/dns_packet.c:43-72 | for every buffer and start: the loop fails to end inside the buffer if and only if it leaves the buffer, or it meets a finite chain of pointers, and nothing else, that leads back to the position it started from |
| NameReader.SelfPointerHangs | DNS_server/dns_packet.c:45-54 | a failing family: a name that starts with a pointer to itself is never read to its end |
| NameReader.SpellsUnique | DNS_server/dns_packet.c:45-71 | the bytes at a position denote at most one sequence of labels |
| NameReader.ReadSpelled | DNS_server/dns_packet.c:43-82 | on bytes that denote labels the reader appends their text, and fails exactly when text and NUL do not fit with a byte to spare |
| NameReader.AcceptedIsSpelled | DNS_server/dns_packet.c:43-82 | whatever a backward read accepts was a denoted name with that text |
| NameReader.ReadRefinesDenotation | DNS_server/dns_packet.c:36-83 | the reader refines the denotation of RFC 1035 section 4.1.4: success if and only if the bytes denote a name that fits, and then that name's dotted text |
| NameReader.CompressionPreservesMeaning | DNS_server/dns_packet.c:45-71 | labels followed by the two bytes of a pointer decode exactly as the labels of both written out, in any buffers and for any destination size, and end two bytes after the labels |
| NameReader.PointerLeadsTo | DNS_server/dns_packet.c:51-53 | the bytes 192 + t / 256 and t % 256 lead the reader to offset t, for every t of fourteen bits |
| NameReader.CompressedNameReads | DNS_server/dns_packet.c:43-82 | byte by byte: labels, a pointer to any fourteen-bit prior offset t, and encoded labels at t are read as the labels of both |
| NameReader.PrefixedHead | DNS_server/dns_server.c:82-106 | where a name stands on the wire, its first byte is the first label's length, the label follows, then the rest |
| NameReader.EncodedPrefixFree | DNS_server/dns_server.c:82-106 | no encoding is the beginning of another name's; encodings are injective |
| NameWriter.EncodeName | DNS_server/dns_server.c:82-106 | the buffer gets the length-prefixed labels and a zero at the given place and nothing else changes, for every C string; the result is the string's length plus 2 |
| NameWriter.NameRoundTrip | DNS_server/dns_server.c:82-106 | reading an encoding anywhere in a buffer gives the name back, and start plus encoded length |
| NameWriter.RoundTripExactly | DNS_server/dns_packet.c:56-82 | for every max_len, a name is read back, with the right end, if and only if its labels have 1 to 191 bytes and its length + 1 < max_len; longer labels, whose length byte wraps, included |
| NameWriter.WireInjective | DNS_server/dns_server.c:82-106 | two names of which one's wire form begins the other's are the same name |
| Names.SplitText | DNS_server/dns_server.c:87-100 | cutting at dots loses nothing: the labels joined again are the text |
| Names.SplitDotted | DNS_server/dns_server.c:87-100 | labels without dots survive joining and cutting |
| Messages.HeaderRoundTrip | DNS_server/dns_packet.h:29-58 | every field of every header survives printing and parsing |
| Messages.HeaderWire | DNS_server/dns_packet.h:29-58 | the twelve header bytes field by field: big-endian words, and the flag bits at their places from QR down to RCODE |
| Messages.QuestionWire | DNS_server/dns_server.c:138-153 | after the name come type and then class, high byte first |
| Messages.HeaderBytesRoundTrip | DNS_server/dns_packet.c:136-148 | no bit of the twelve header bytes is lost by parsing |
| Messages.ParseName | DNS_server/dns_packet.c:152-164 | the 256-byte buffer and strdup yield the denoted name cut at a NUL, or -1 |
| Messages.NameParsedExactly | DNS_server/dns_packet.c:152-164 | a readable name on the wire is taken by the parser, with its end, if and only if it has at most 254 bytes |
| Messages.ParseQuestion | DNS_server/dns_packet.c:150-177 | the question and the offset after it, or no change of the offset on failure |
| Messages.ParseAnswer | DNS_server/dns_packet.c:179-228 | the answer found after the question, failing when either name does not fit |
| Messages.AnswerRoundTrip | DNS_server/dns_packet.c:203-225 | for every name before them, plain or compressed, and every type, class, 32-bit ttl, length and data, the answer's fields on the wire are parsed back, each in its place |
| Messages.MessageRoundTrip | DNS_server/dns_packet.c:230-252 | a message of any header with ANCOUNT above 0, any portable question, and an answer for any portable name, of any type, class, ttl and data, is parsed back into the same packet |
| Messages.ParseRequest | DNS_server/dns_packet.c:230-252 | the whole message; the answer is looked at only if ANCOUNT is positive |
| Messages.QuestionStaysInside | DNS_server/dns_packet.c:150-177 | a 512-byte buffer is enough: parsing any question whose pointers go backward ends and stays inside it |
| Messages.AnswerStaysInside | DNS_server/dns_packet.c:179-228 | in a 512-byte buffer with backward pointers, the answer's name stays inside after every question that ends by byte 255, and then parsing the answer stays inside if and only if its fields and its unchecked RDLENGTH bytes end by byte 512 |
| Messages.Serialize | DNS_server/dns_server.c:122-153 | exactly qname length + 18 bytes are produced, those of header and question |
| Messages.CreatedQueryWire | DNS_server/dns_packet.c:86-114 | the bytes of a created query: the id, RD and QDCOUNT alone set, type A, class IN |
| Messages.WellFormedPortable | DNS_server/dns_server.c:122-153 | every well-formed name can be carried, in at most 271 of the 512 bytes |
| Messages.QuestionRoundTrip | DNS_server/dns_packet.c:150-177 | a printed question is parsed back, ending at its last byte |
| Messages.QueryRoundTrip | DNS_server/dns_server.c:122-153 | for every header, name, type and class the sent bytes give back the header and the question, which ends exactly at the last byte sent, whatever follows; the whole packet comes back if and only if ANCOUNT is 0, since the answer is never sent |
| Responder.DecodeQueryName | DNS_server/Others/tdns-c-test.c:25-34 | the nested loops leave the collected labels, dots between them, in the domain array, for every datagram up to 512 bytes that they do not read past |
| Responder.DecodesInside | DNS_server/Others/tdns-c-test.c:26-33 | whatever it holds, a datagram that leaves a byte of the buffer free is decoded without reading past it |
| Responder.DecodesLabels | DNS_server/Others/tdns-c-test.c:27-33 | on an encoding inside the datagram whose text fits the array, the loops collect exactly the text of the labels before the first one of 128 bytes or more |
| Responder.DecodesCut | DNS_server/Others/tdns-c-test.c:25-33 | the same for names that do not fit: the text is cut at 255 bytes and closed by a dot |
| Responder.DecodersAgree | DNS_server/Others/tdns-c-test.c:25-34 | on every name that dns_read_name reads back, this decoder gives the same name if and only if every label is shorter than 128 bytes; so on every well-formed question |
| Responder.BuildResponse | DNS_server/Others/tdns-c-test.c:64-85 | the response array holds the id, the fixed header, the query's question, the pointer and the address, 16 bytes more than the query |
| Responder.ResponseWire | DNS_server/Others/tdns-c-test.c:64-85 | the response byte by byte: id, 0x8180, the counts 1 1 0 0, the question, the pointer to offset 12, type 1, class 1, 60 seconds, length 4, the address |
| Responder.PointerReadsQuestion | DNS_server/Others/tdns-c-test.c:75-76 | the pointer 0xC00C decodes to the question's name and counts for two bytes |
| Responder.ResponseRoundTrip | DNS_server/Others/tdns-c-test.c:64-85 | for every query of a header and one question, the response is parsed into the same id and question and an answer for the same name: A, IN, TTL 60, RDLENGTH 4, the given address |
| ResponseWait.WaitResponse | DNS_server/dns_server.c:368-464 | over every sequence of datagrams, of any length, and clock readings: 0 if and only if a parsable response to the id is read before deadline or error, and then one callback, with the first such; otherwise -1 and none |
| ResponseWait.WaitSucceeds | DNS_server/dns_server.c:383-448 | silence, interruptions and unwanted or unparsable datagrams never end the wait: before the deadline the first wanted datagram gives 0 and its callback |
| ResponseWait.WaitFails | DNS_server/dns_server.c:395-414 | a failure of select or recvfrom, or the deadline, before any wanted datagram gives -1 and no callback |
| ResponseWait.WantedIs | DNS_server/dns_server.c:417-424 | wanted means: parsable, with the query's id and QR 1 |
| ResponseWait.StoredExactly | DNS_server/dns_server.c:578-595 | the callback keeps the first four bytes of the data exactly if there is an answer of type 1 |
| ResponseWait.FirstWantedUnique | DNS_server/dns_server.c:383-461 | at most one turn of the loop can be the one that matched |
| ResponseWait.ExchangeDelivers | DNS_server/dns_server.c:491-595 | a created query, answered as handle_dns_query answers, is what the waiting loop wants, and the callback keeps the responder's address |
| Words.NextToken | DNS_server/trie.c:181-194 | strtok as used here: the words from a place on are the token found and the words after it |
| Words.WordsAtDot | DNS_server/trie.c:181-194 | the words of two texts joined by a dot are those of the first and then those of the second, with empty ones between dots skipped |
| Words.ExtractWords | DNS_server/trie.c:159-199 | the array holds the non-empty labels in order, closed by NULL, inside its bounds |
| Words.ArraySize | DNS_server/trie.c:200-210 | the number of words before the NULL |
| Words.WordsAreLabels | DNS_server/trie.c:159-199 | words and labels are the same if and only if no label is empty |
| Words.SplittersAgree | DNS_server/trie.c:159-199 | for well-formed names the wire form is that of the words, and the words joined by dots are the name |
| Trie.FirstRecord | DNS_server/trie.c:555-572 | the first record whose value is set |
| Trie.Walk | DNS_server/trie.c:543-591 | the loop with its restart at the first child terminates with the answer of the recursive search |
| Trie.FindFollowsPath | DNS_server/trie.c:545-588 | with distinct siblings a path decides the answer, although the walk never goes back |
| Trie.WalkRefinesPathLookup | DNS_server/trie.c:543-591 | with distinct siblings, on every finite tree: a record is found if and only if the reversed words form a path to it, and nothing if and only if there is no path |
| Trie.CreateTerminalNode | DNS_server/trie.c:431-476 | a zone's node: first "@" with the name servers, then one child for each host in order |
| Trie.CreateBranch | DNS_server/trie.c:477-516 | the branch: all later nodes directly under that of the last label |
| Trie.BuildForest | DNS_server/mainDNS.c:168-172 | one branch for each zone under the root, equal labels not merged |
| Trie.ForestIsFlatTable | DNS_server/trie.c:477-591 | for every list of zones, of any depth and sharing last labels or not, searching the built trie answers every query as a table read off the zones, the first zone with the last label speaking |
| Trie.BranchAnswers | DNS_server/trie.c:477-591 | what the walk ends with inside one zone's branch, for any number of labels and every query: redirect, host, unset pointer or nothing |
| Trie.ForestIsUnion | DNS_server/trie.c:477-591 | if the last labels differ, the table is the union of what the zones say, whatever their order |
| Trie.HostResolves | DNS_server/trie.c:543-591 | what a query for a host gets, of any zone that no earlier zone and no middle label of its own hides |
| Trie.HostsResolveExactly | DNS_server/mainDNS.c:168-172 | for any list of different zones with hosts: every host of every zone can be found if and only if the last labels all differ, no zone has a third label, and in no zone a host is called "@" or has a namesake with another value |
| Trie.SharedTldHides | DNS_server/mainDNS.c:168-172 | a failing family: behind an earlier zone with the same last label no host of a zone is found, one-label and two-label zones mixed |
| Trie.ZoneResolvesExactly | DNS_server/trie.c:510-513 | in any forest whose last labels differ, all hosts of one zone can be found if and only if it has at most two labels and no host hides another |
| Trie.DeepZoneHidden | DNS_server/trie.c:510-513 | another failing family: in any forest the walk misses the full name of every host of a zone of three or more labels |
| Trie.TooDeep | DNS_server/trie.c:543-591 | in a tree without paths longer than h the walk finds nothing for more than h words |
| Trie.BranchHeight | DNS_server/trie.c:488-513 | however many labels a zone has, its branch has no path longer than two |
| Cache.HashFunction | DNS_server/cache.c:25-32 | wrapping at every step gives 5381 * 33^n plus every signed char times 33 to the number of chars after it, modulo 2^32, modulo 100 |
| Cache.CacheEntry.constructor | DNS_server/cache.c:143-160 | a new entry has the given name and value, no times and no link |
| Cache.DnsCache.constructor | DNS_server/cache.c:18-23 | 100 empty buckets, holding nothing |
| Cache.WithoutUnique | DNS_server/cache.c:96-116 | filtering a chain keeps its names distinct |
| Cache.Unlink | DNS_server/cache.c:100-104 | changing one link takes exactly the k-th node out of a list and leaves every other bucket alone |
| Cache.SweepBucket | DNS_server/cache.c:87-116 | a bucket's survivors are its chain without the expired nodes, in order, still linked and acyclic; only links are written |
| Cache.DnsCache.CleanUp | DNS_server/cache.c:81-119 | in all 100 buckets exactly the entries with now - timestamp >= ttl go; order, fields, hash placement and distinct names are kept |
| Cache.Search | DNS_server/cache.c:38-45 | the entry of the name down a list, or null only if no node has it |
| Cache.DnsCache.LookupEntry | DNS_server/cache.c:59-79 | sweep, then a hit exactly if the name is still there, which stamps its entry and no other; the chains are the swept ones, in order |
| Cache.Touch | DNS_server/cache.c:68-72 | stamping one node changes the table at its name only |
| Cache.Prepend | DNS_server/cache.c:47-53 | the new node in front keeps the chain well-formed and adds its name with 50 seconds to live |
| Cache.DnsCache.AddEntry | DNS_server/cache.c:34-57 | a name already there leaves everything as it was; otherwise the entry goes to the front of its bucket |
| Redirects.EndsExactlyWithoutCycle | DNS_server/trie.c:573-587 | the recursion from a name ends under every fall of the coin if and only if no redirects from it come back to a name already met and none leads to an unset pointer |
| Redirects.EndsComes | DNS_server/trie.c:543-591 | what ending means: under every sequence of coin falls, after finitely many redirects, a record or nothing |
| Redirects.RedirectsToNsName | DNS_server/trie.c:573-587 | every redirect leads to one of the finitely many name-server names stored in the tree |
| Redirects.RankFromAcyclicity | DNS_server/trie.c:580-586 | from the absence of cycles and unset pointers: a rank on names that falls at every redirect, so retriveValue terminates |
| Zones.UndefinedExactly | DNS_server/trie.c:543-587 | over any zones, a query follows an unset pointer if and only if it has no word and there is a zone, or a zone that no earlier one hides has it for the bare last of several labels, for a middle label directly under its last, or for "@" at its own node |
| Zones.MiddleLabelUnset | DNS_server/trie.c:510-513 | a failing family: in a zone of three or more labels, a middle label directly under the last one follows an unset pointer |
| Zones.BareLastLabel | DNS_server/trie.c:573-587 | another: a bare last label does so exactly if the zone has a second label; a zone's only label redirects |
| Zones.AtUnset | DNS_server/trie.c:457-458 | and so does "@" under a zone's own node |
| Zones.NameEndsExactly | DNS_server/trie.c:573-587 | read off any zones: resolution of a name ends if and only if it is none of those queries and, where it stops at a zone, no delegation between zones that starts there comes back to a zone already met or ends in such a query |
| Zones.LoopingZone | DNS_server/trie.c:573-587 | a concrete loop: the zone "a.b" with itself for name server never resolves its own name, under no fall of the coin |
| Zones.EndsExactly | DNS_server/trie.c:543-587 | if every name server is a host that can be found, exactly those queries are to be avoided |
| Resolver.CachedExactlyOnHit | DNS_server/mainDNS.c:118-142 | after a retrieval its entry's name is in the table if and only if the last search hit, and a name that came to nothing is not; so the add inserts exactly on a miss |
| Resolver.TrieRequest | DNS_server/mainDNS.c:105-113 | the request "trie" gets the fixed reply and touches nothing |
| Resolver.RetrieveRight | DNS_server/trie.c:517-592 | with a faithful cache, a local name gives its record, and anything else is what resolution without a cache gives, or an earlier upstream answer to a name on the chain of redirects |
| Resolver.HandleKeepsFaithful | DNS_server/mainDNS.c:118-142 | every request keeps the invariant: a cached pair is the name's own record, or an upstream answer to a query that resolved to nothing; every ttl is 50 |
| Resolver.RunFaithful | DNS_server/mainDNS.c:118-142 | the invariant after any number of requests, whatever clock, coin and upstream do |
| Resolver.LogIsHistory | DNS_server/mainDNS.c:129-142 | every forwarded answer on record is the reply to an earlier request of the same run, for that name |
| Resolver.CacheIsTransparent | DNS_server/mainDNS.c:118-150 | over every run: a local name always gets its own record; any other reply is the uncached one, or repeats the reply to an earlier request that was forwarded, for that name or one it is redirected to |
| Resolver.NoApexCached | DNS_server/trie.c:526-591 | a name that redirects to two servers with local records is never the key of a cache entry, whatever other zones there are |
| Resolver.ApexAnswered | DNS_server/trie.c:573-587 | such a name is always answered with the local record of the first server if the coin read at that request says so, otherwise of the second; never with nothing |
| Resolver.ResolveFollowsChase | DNS_server/trie.c:573-587 | resolution begun at a tick follows, redirect by redirect, the coins read from that tick on, to the first name that has a record or is not there |
| Resolver.LookupRefines | DNS_server/cache.c:59-79 | a lookup in the swept table hits if and only if fewer than 50 seconds have passed since the name's last touch in a cache that is never swept |
| Resolver.SlidingExpiry | DNS_server/cache.c:34-79 | with a monotone clock every run gives the same replies as an ideal cache in which a name hits until 50 seconds after its last insertion or hit; the table is the ideal one without some of what is stale |
| Zones.HostServersAreLocal | DNS_server/trie.c:573-587 | a zone, of any depth, whose own name servers are hosts that can be found redirects to local records |
| Zones.HostsAnswered | DNS_server/mainDNS.c:118-150 | from zone data to reply: in every run a host of any zone that nothing hides is answered with its own value, whatever the other zones and the name servers are |
| Zones.ApexesAnswered | DNS_server/mainDNS.c:118-150 | from zone data to reply: in every run a query that stops at a zone whose servers are such hosts is answered with the value of the first or of the second, as the coin read at that request says |
| Server.RetrieveValue | DNS_server/trie.c:517-592 | on the heap: a fresh entry and the table that the value-level retrieval prescribes, with the chains still well-formed |
| Server.HandleClient | DNS_server/mainDNS.c:105-150 | on the heap: the reply and the new table of one request, the trie request touching nothing |
| Server.Serve | DNS_server/mainDNS.c:118-150 | a run of requests over the linked nodes, from an empty cache, gives exactly the replies the run theorems speak of |
| PoolRing.EnqueueAppends | DNS_server/thread.c:71-74 | writing at the rear modulo 100 appends to the queue |
| PoolRing.DequeueTakesFirst | DNS_server/thread.c:25-27 | reading at the front modulo 100 takes the oldest task |
| PoolRing.ThreadPool.constructor | DNS_server/thread.c:40-60 | an empty queue, not stopped |
| PoolRing.ThreadPool.AddTask | DNS_server/thread.c:63-81 | -1 and no change exactly when 100 tasks wait; otherwise the task comes last |
| PoolRing.ThreadPool.CheckQueue | DNS_server/thread.c:10-31 | wait, exit, or leave with the oldest task, as stop and the queue decide |
| PoolRing.ThreadPool.Stop | DNS_server/thread.c:84-88 | the flag is set and the queue is as it was |
| PoolProtocol.StepKeepsInv | DNS_server/thread.c:10-88 | every action of any worker, producer, spurious wakeup or shutdown keeps the invariant |
| PoolProtocol.FifoConservation | DNS_server/thread.c:25-80 | in every run the tasks offered with room are, in order, those fetched followed by those queued: none lost, none twice, none else |
| PoolProtocol.OfferAccepted | DNS_server/thread.c:66-80 | an offer is put at the end of the queue exactly if AddTask returns 0, that is with fewer than 100 queued, stopped or not |
| PoolProtocol.AcceptedExactly | DNS_server/thread.c:66-80 | over every run the accepted tasks are exactly those offered while fewer than 100 were queued |
| PoolProtocol.AllAccepted | DNS_server/thread.c:66-80 | if no more than 100 can be queued, every task offered is accepted, in order |
| PoolProtocol.CheckTakesOldest | DNS_server/thread.c:13-35 | a worker at the queue leaves with the oldest task and runs that one, exits if stopped, waits otherwise |
| PoolProtocol.AnyInterleaving | DNS_server/thread.c:10-88 | whoever looks, runs or waits may move next, spurious wakeups included; every task may be offered and the pool stopped at any time |
| PoolProtocol.NoLostWakeup | DNS_server/thread.c:10-79 | in every reachable state that is not stopped, if anybody waits the queue is no longer than the number of woken workers; so with a task queued somebody is awake, and the next to look leaves with the oldest task |
| PoolProtocol.PoolDrains | DNS_server/thread.c:9-36 | without shutdown workers take boundedly many steps for the tasks and wakeups given to them, and when none is left every accepted task has been fetched |
| PoolProtocol.StoppedStep | DNS_server/thread.c:18-22 | after the stop each worker step lowers the rank by one and no action fetches a task |
| PoolProtocol.ShutdownCompletes | DNS_server/thread.c:84-92 | after the stop nobody waits, at most two steps per worker remain, all workers have exited if and only if none can step, and the tasks left undone are those queued |

## Left out

- Sockets, `select`, `recvfrom`, `sendto`, signals and real time: datagrams, poll results and clock readings are inputs.
- `popen`, the shell scripts and zone-file text: a zone is given as labels, hosts with values, and two name servers. The stray newline label that such text can produce is one more label here.
- The logger, the client program, all printing (with the clock readings it makes) and the picture of the trie; the reply to a `trie` request is a constant.
- `dns_send_answer`: it copies names as dotted text, so no round trip through the parser holds for it.
- Races on the cache: `handleClient` takes no lock around it; a request is one atomic step here.
- Thread-count mismatch at join: `destroyThreadPool` joins MAX_THREADS (10) threads while `main` starts 5; the pool here has any number n of workers, and joining is their having exited.
- Allocation failure, `free`, leaks, `inet_ntop` formatting (an upstream answer is its address text, and the callback keeps the four bytes), the quality of `rand`, SOA metadata, MX records and ttl values of zones, which lookup never reads.
- Fixed sizes that the source does not check: 32 children per node, 1024 bytes per request, and arrays in the scripts' readers. Reads of unset or out-of-bounds memory have no meaning here; `Settles`, `Parsable`, `SafeTurn` and `Answerable` exclude them, and exact conditions for two of them are proved (`HangsExactlyOnPointerCycle`, `NameEndsExactly`).
- The lookup of the address in `handle_dns_query`.
- The time and ttl that `retriveValue` puts on the entry it returns: `addCacheEntry` overwrites them, or the entry is dropped.
- `srand(time(0))` before each coin: the coin is arbitrary, which includes whatever that seeding does.
- Messages.Serialize: asks that the packet fits its 512 bytes, which the source does not check; every well-formed name does (`WellFormedPortable`).
- Responder.BuildResponse: asks for a query of at most 496 bytes, because the source adds 16 bytes to a 512-byte array unchecked.
- Responder.DecodeQueryName: asks for more than 13 bytes and a first length byte from 1 to 127, because otherwise the source writes before its array; and for a datagram of all 512 bytes that its name ends inside the buffer, because the source reads on.
- ResponseWait.WaitResponse: assumes that some clock reading reaches the deadline, without which the source need not return.
