# Sandweave host logic, verified

A Dafny model of the host-side logic that keeps Sandweave's sandboxes apart from the network, from each other's
processor time and from unverified files. Every module follows one source file or one part of it. Where the source
changes state, the model has a class or a loop that is proved equal to a specification function of the old state and
the inputs; the theorems are about those functions, over all inputs, runs and reachable states.

`dafny verify dfyconfig.toml` checks the project.

## The modules

* **Bytes, Ordered** – network byte order, and Python's insertion-ordered dictionaries as sequences of pairs.
* **Packets** – IPv4, ARP, TCP, UDP as their senders write them, field by field, and what a reader finds at each offset.
  The theorems below about frames and segments are stated for these, so they do not speak through the parsers they are
  about.
* **DnsName, TcpStream, Cname, DnsMessage, Admission, Allowlist** (`scripts/network_allowlist.py`) – compressed names,
  reassembly of DNS over TCP, the CNAME closure, and the caches that admit addresses. `Admission.Replay` gives the
  caches as a function of the history of observed traffic; the class `Allowlist.Allowlist` keeps its fields equal to it.
* **DnsOverTcp, DnsRecords, AdmissionWire** – the same for segments and messages as they are written: reassembly
  (`StreamGivesMessages`, `StreamGivesAllThatArrived`, `InOrderIsHeard`), questions and records (`AskedExactly`,
  `RecordsAreRead`, `RefusedExactly`), and both directions of admission (`AdmittedIsWritten`, `WrittenAnswerAdmits`).
* **Egress, NetworkPolicy, EgressWire, Traffic** (`scripts/network_policy.py`) – the decision on every frame and the flow
  table. `Egress` holds the decision as a function and the theorems over runs of frames and changes of the rules
  (`FlowsStayOrderly`, `RepliesPassExactly`); the class in `NetworkPolicy` is proved to follow it. `EgressWire` says what
  is decided on the packets that are written (`EgressIsBounded`, `GatewayTrafficIsForwarded`, `InboundIsBounded`).
  `Traffic` ties what an allowlist has heard to the frames its policy let through since the last update, which is part of
  the class invariant (`EgressIsJustified`).
* **Checksum, Router, RouterWire, ServiceDns, ServiceWire, Hub, HubWire** (`scripts/service_network.py`) – the Internet
  checksum modulo 65535, address translation (`RoutedIs`, `TransportStaysValid`), the DNS reply read back by the parser of
  the allowlist (`ReplyIsReadable`, `AnsweredExactly`), and the five maps of the hub with what follows for delivery and
  lookups (`DeliveryIsSymmetric`, `DeliveredExactly`, `LookupIsAnswered`).
* **CpuShares, CpuDemand, CpuBroker, PauseProtocol** (`scripts/cpu_broker.py`, `scripts/environment_control.py`) – weighted
  water-filling over the reals (`FilledIsFair`, `AllocationIsUnique`), the observed demand (`WaitingIsSustained`), credit
  with debt (`QuotaHolds`, `CreditIsConserved`), and the hand-off of a sandbox to a lifecycle client as a transition
  system whose steps interleave at the awaits, failed requests included (`ReleasedForGood`, `HandOff`, `ClientIsSafe`).
* **BuildStream** (`scripts/build_artifacts.py`), **InputEvents, InputReplay** (`scripts/fast_io.py`), **Mounts**
  (`scripts/filesystem_snapshot.py`), **SnapshotVerify** (`scripts/snapshot_store.py`) – the framed transfer, the
  compiler of input gestures with what its events do when they are replayed, the coverage of mounts by a cold snapshot,
  and verification with receipts.

Bytes are integers below 256, names and messages sequences of them. Time is an input: a real number that does not run
backwards where the theorem needs it (32-bit sequence numbers, lengths and checksums wrap as in the source). Hashes, the
kinds of IP addresses and the contents of files are function parameters. Errors are `None`, `false` or a constructor of
the result; which message they carry is not modelled.

## What turned out not to hold

Each of these is kept as the code has it, with the exact condition or a concrete case.

* `Hub.Remove` fails half-way for a member that lists an alias twice and alone holds it
  (`RemoveCanFail`; `Remove` succeeds if and only if `Removable`). The callers' entry point drops repeated
  aliases before they reach the hub (`src/sandweave/sandbox/networks.py:20-36`).
* A DNS reply for a name of 127 labels or more cannot be read by the 128-step parser: the question is readable up to
  127 labels, the answer's owner up to 126 (`ReplyIsReadable`). Every name of at most 255 octets on the wire is answered
  when the table has it, and its answer can be read if and only if it has fewer than 127 labels (`LegalNameIsAnswered`);
  names of 127 labels exist (`LongestNameIsUnreadable`).
* Reassembly can lose octets that arrived: a shorter segment takes the place of a longer one that waits with the same
  sequence number (`ShorterLoses`). Every octet a record got past has arrived, and the one it stopped at has arrived if
  and only if a segment displaced it while it waited, where no other stored segment held it (`GivesAllThatArrived`). A
  sender that never shrinks a waiting segment loses nothing (`GrowingDropsNothing`).
* A sampled counter that falls is counted again when it recovers; sampling is exact if and only if it never falls
  (`CountedExactly`).
* The lifecycle client compares times. That is safe when no marker is created between a decision point's scan and its
  report (`ClientIsSafe`), and not in general (`TimesAreNotEnough`); exactly, the guest stays free if and only if the last
  scan saw the marker and the guest is free now (`ClientExactly`).
* Giving up a control request can break the hand-off (`FailuresBreakTheHandOff`). After any run with any failures the
  guest stays free if and only if the last scan saw the marker, the guest is free, and no request to pause that was given
  up can still be carried out (`ReleasedForGood`). If no request to pause was given up before the report, the report can
  be relied on exactly when its scan saw the marker, whatever fails afterwards (`HandOff`).
* A writable self-bind of a read-only mount is accepted although nothing lists its files (`ReadOnlyBackingIsAccepted`).
  Without stacked mounts the files of a mount are listed or rebuilt if and only if it is rebuilt, or writable and no
  self-bind (`LostExactly`); those of a writable view if and only if the mount at the end of its chain is not read-only,
  or is rebuilt (`SavedExactly`).
* A pass does not always leave receipts for the next run: it does if and only if the snapshot has an identifier, or its
  manifest is not rewritten, or had every hash recorded before (`ReceiptsServeNext`).

## Model

| member | source | states |
|---|---|---|
| DnsName.WrittenOnce | scripts/network_allowlist.py:34-53 | An offset spells at most one wire form, so pointers cannot make a name ambiguous |
| DnsName.DecodedInverts | scripts/network_allowlist.py:34-53 | Decoding inverts the wire encoding of section 4.1.4 of RFC 1035 up to 128 steps: the lower-cased labels, and the first octet after the in-place part however many pointers follow |
| DnsName.LowerAt | scripts/network_allowlist.py:50 | Capital letters become small ones, octet by octet, and every other octet stays |
| DnsName.NeverReturns | scripts/network_allowlist.py:37 | A reader on its way to a root octet never meets an offset twice |
| DnsName.RemainingReads | scripts/network_allowlist.py:37-53 | The check for repeated offsets rejects no name within the step limit |
| DnsName.RemainingRejects | scripts/network_allowlist.py:37-53 | Octets that spell no wire form are rejected whatever has been visited |
| DnsName.Decode | scripts/network_allowlist.py:34-53 | The loop terminates on every octet string and offset and returns exactly the decoded name or an error |
| TcpStream.FindReady | scripts/network_allowlist.py:121-126 | Finds the first stored segment that starts at or before the next sequence number, modulo 2^32 |
| TcpStream.Drain | scripts/network_allowlist.py:120-132 | The drain loop terminates and moves every segment that becomes contiguous |
| TcpStream.DrainBounds | scripts/network_allowlist.py:117-132 | After a drain no stored segment starts at or before the next sequence number, and no octets are gained |
| TcpStream.TakeMessages | scripts/network_allowlist.py:133-138 | The framing loop takes exactly the complete messages off the buffer |
| TcpStream.SplitOfFramed | scripts/network_allowlist.py:133-138 | Splitting undoes framing whatever octets follow (section 4.2.2 of RFC 1035) |
| TcpStream.SplitIsFraming | scripts/network_allowlist.py:133-138 | The messages split off and the rest are the input again, and the rest does not begin with a whole message |
| TcpStream.SplitExtends | scripts/network_allowlist.py:133-138 | Splitting piece by piece gives what splitting at once gives |
| TcpStream.AdvanceSound | scripts/network_allowlist.py:123-132 | Consuming one due segment appends the next octets of the sent stream under any overlap and 32-bit wrap |
| TcpStream.DrainSound | scripts/network_allowlist.py:120-132 | A drain only appends the next octets of the sent stream |
| TcpStream.AcceptSound | scripts/network_allowlist.py:113-138 | One segment within 2^31 of the position keeps the record in step with the stream and gives out the messages it completes |
| TcpStream.AcceptBounds | scripts/network_allowlist.py:117-119 | Whatever the peer sends, a record that is kept holds at most 131072 octets and nothing that is due |
| TcpStream.Reassembles | scripts/network_allowlist.py:95-142 | Over a whole lifetime, under any order, overlap, repetition and wrap, the record consumes a prefix of the stream and gives out exactly its messages |
| TcpStream.GivesSendersMessages | scripts/network_allowlist.py:95-142 | A record opened at the start gives out a prefix of the sender's messages; with its buffer they are a prefix of the sender's octets, whose length modulo 2^32 is the sequence number |
| TcpStream.GivenUpExactly | scripts/network_allowlist.py:117-119 | A record is given up exactly when its octets would exceed 131072 |
| TcpStream.InOrderGivesAll | scripts/network_allowlist.py:113-138 | In order, however cut, the sender's octets give all its messages and meet no bound |
| TcpStream.RunReaches | scripts/network_allowlist.py:113-132 | Over any run, what has arrived is exactly what is consumed, stored, or was displaced while it waited by a segment that takes its place without holding it |
| TcpStream.ReachesFirstGap | scripts/network_allowlist.py:113-132 | Every octet a record got past has arrived, and the one it stopped at has arrived exactly when a segment displaced it |
| TcpStream.GivesAllThatArrived | scripts/network_allowlist.py:95-142 | Messages given out and octets held back are the sender's octets up to that one, under any order, overlap, repetition and wrap |
| TcpStream.GrowingDropsNothing | scripts/network_allowlist.py:115-116 | If no segment is shorter than the waiting one whose place it takes, none is displaced |
| TcpStream.ShorterLoses | scripts/network_allowlist.py:115-116 | Octets that arrived can be lost: a shorter segment takes the place of a longer one |
| Cname.Close | scripts/network_allowlist.py:178-186 | The rounds over the records, with their early stop, compute the closure |
| Cname.PassGrows | scripts/network_allowlist.py:180-186 | A pass that changes nothing has reached the fixpoint, and any other adds a name |
| Cname.RoundsClose | scripts/network_allowlist.py:179-186 | As many rounds as there are records always suffice |
| Cname.ClosureIsReachable | scripts/network_allowlist.py:178-189 | The aliases are exactly the names that CNAME records lead to from the question, each with the smallest lifetime along some such chain |
| DnsMessage.Ask | scripts/network_allowlist.py:147-155 | Header and question are accepted exactly when they are a plain question of an allowed name and type in the expected direction |
| DnsMessage.ReadAnswer | scripts/network_allowlist.py:167-177 | One record contributes an alias, an address or nothing, or makes the message invalid |
| DnsMessage.ReadAnswers | scripts/network_allowlist.py:165-177 | All records are read in order or the whole response is refused |
| DnsRecords.AskedExactly | scripts/network_allowlist.py:147-155 | Of all messages as section 4.1 of RFC 1035 writes them exactly these are taken: one question, the right direction, a standard query without error, at most 512 answers, class IN, type A or ANY, a covered name of at most 128 steps; and these fields are read |
| DnsRecords.AskedIsWritten | scripts/network_allowlist.py:147-155 | Octets that are no such message are not taken |
| DnsRecords.WildcardCoversSubdomains | scripts/network_allowlist.py:67-68 | `*.base` covers exactly the names with more labels than the base that end in its labels |
| DnsRecords.RecordsAreRead | scripts/network_allowlist.py:165-177 | Reading records as section 4.1.3 of RFC 1035 writes them yields one alias from owner to target for every Internet CNAME, one address for every four-octet A record, each with its own TTL, and nothing for others |
| DnsRecords.RefusedExactly | scripts/network_allowlist.py:165-177 | A response is refused exactly when its octets are not the records it announces |
| Admission.ReplaySound | scripts/network_allowlist.py:82-86 | In every reachable state both caches are bounded, every query entry is an open question and every address entry is granted by the history |
| Admission.AdmissionIsJustified | scripts/network_allowlist.py:82-93 | An admitted address was resolved for an exact rule under 60 seconds ago, or a response that used an open, unexpired query leads to it by CNAME records none of whose lifetimes has run out |
| Admission.UsedAt | scripts/network_allowlist.py:163-164 | Whatever the cache lets through as an answer answers an open, unexpired question of the history |
| Admission.UseIsBelieved | scripts/network_allowlist.py:157-164 | Conversely a response to an open, unexpired question is let through if fewer than 4096 others were asked since |
| Admission.BelievedApart | scripts/network_allowlist.py:163-164 | Over any history, no two responses that are let through rest on one question |
| Admission.QueriesConserved | scripts/network_allowlist.py:157-164 | The responses believed and the queries still open are at most the questions asked |
| Admission.BelievedAdmits | scripts/network_allowlist.py:187-189 | Conversely a believed response admits every address it leads to for its lifetime; the bound on the cache never evicts part of the same response |
| Admission.StaysAdmitted | scripts/network_allowlist.py:82-93 | An admitted address stays so until its lifetimes run out, as long as fewer than 8192 addresses come with and after it |
| AdmissionWire.AdmittedIsWritten | scripts/network_allowlist.py:82-189 | Whatever is admitted was resolved for a rule that is no wildcard under 60 seconds ago, or a response as written leads to it from a covered name, no lifetime having run out, whose port, identifier, name and type are those of a question asked at most 30 seconds before it |
| AdmissionWire.WrittenAnswerAdmits | scripts/network_allowlist.py:82-189 | A believed response as written admits every address its CNAME records lead to, for as long as every lifetime allows, a day at most, whatever is heard meanwhile, unless 8192 addresses come with it and after it |
| Allowlist.Allowlist.constructor | scripts/network_allowlist.py:57-61 | A new allowlist has seen nothing |
| Allowlist.Allowlist.Allows | scripts/network_allowlist.py:88-93 | Allowed exactly when a configured network holds the address or the history admits it now |
| Allowlist.Allowlist.RememberAddress | scripts/network_allowlist.py:82-86 | The entry becomes the newest, is never shortened, and only the oldest are evicted above 8192 |
| Allowlist.Allowlist.Resolve | scripts/network_allowlist.py:70-80 | Seeds exactly the resolved addresses of the exact rules, in order and each at its own time, and nothing for wildcard rules |
| Allowlist.Allowlist.SeedAll | scripts/network_allowlist.py:78-80 | The addresses of one rule under one lock |
| Allowlist.Allowlist.Seed | scripts/network_allowlist.py:78-80 | One resolved address extends the history by one lookup |
| Allowlist.Allowlist.Observe | scripts/network_allowlist.py:144-191 | One message extends the history by exactly that message and leaves the streams alone |
| Allowlist.Reassemble | scripts/network_allowlist.py:95-140 | A segment resets, opens, expires, overflows, extends or ends its stream, and evicts only the oldest above 512 |
| Allowlist.Allowlist.ObserveTcp | scripts/network_allowlist.py:95-142 | The streams take one step and every message it completes is observed in order |
| Allowlist.TcpStepTidy | scripts/network_allowlist.py:101-140 | At most 512 streams with distinct keys are kept, each bounded and drained |
| Allowlist.Undisturbed | scripts/network_allowlist.py:105-119 | A segment of one stream can evict another stream but never change it |
| Allowlist.EvictsOnlyOldest | scripts/network_allowlist.py:110-112 | Another stream is evicted only as the oldest of 512, by one that was not there |
| Allowlist.BecomesNewest | scripts/network_allowlist.py:110 | The stream of a segment that leaves it there becomes the newest |
| Allowlist.Continues | scripts/network_allowlist.py:113-140 | A segment of a live stream does to its record what reassembly says; FIN and overflow end it |
| Allowlist.LifetimeIsRun | scripts/network_allowlist.py:95-142 | However streams interleave, one stream's record and messages are those of its own segments alone |
| Allowlist.Opens | scripts/network_allowlist.py:106-119 | A SYN starts a new record whatever was there, and so does the first packet of a stream that is unknown or expired |
| DnsOverTcp.SegmentReads | scripts/network_allowlist.py:97-114 | A segment as it is written, with options of any legal length: its SYN, FIN and RST, the sequence number of its first octet, and exactly its data |
| DnsOverTcp.EveryPayloadIsWritten | scripts/network_policy.py:50-52 | Every TCP payload the packet parser lets through is such a segment, so the theorems about segments cover them all |
| DnsOverTcp.LifetimeIsOwn | scripts/network_allowlist.py:95-142 | What a stream gives out and its record are those of its own segments' sequence numbers and data as written |
| DnsOverTcp.StreamGivesMessages | scripts/network_allowlist.py:95-142 | From the segment that opens its record at the start of the sender's octets on, among all other streams, a stream gives out a prefix of the messages its sender framed |
| DnsOverTcp.InOrderIsHeard | scripts/network_allowlist.py:95-142 | A sender whose segments come in order is heard in full, however it cuts its octets; no bound is ever met |
| DnsOverTcp.StreamGivesAllThatArrived | scripts/network_allowlist.py:95-142 | Nothing that arrived is held back, up to an octet that did not arrive or was displaced while it waited |
| DnsOverTcp.EndGivesMessages | scripts/network_allowlist.py:95-142 | The segment that ends the stream by FIN or overflow continues the sender's messages |
| DnsOverTcp.FirstGivesMessages | scripts/network_allowlist.py:95-142 | The same for a stream that its first segment ends, as SYN with FIN does |
| DnsOverTcp.StreamGivesSplit | scripts/network_allowlist.py:107-140 | A record opened in mid-stream gives out what splitting the octets from there on gives |
| Egress.Ipv4 | scripts/network_policy.py:42-62 | A packet that is parsed has four-octet addresses, a known protocol and a complete transport header |
| EgressWire.ParsesExactly | scripts/network_policy.py:42-62 | Of all IPv4 packets exactly those without options, unfragmented, with a complete TCP, UDP or ICMP header are read, as their source, destination, protocol and payload, whatever the other fields and the padding |
| EgressWire.FlowsExactly | scripts/network_policy.py:80-83 | Which segments, as written, open a flow and which keep it |
| Egress.PoppedIsLive | scripts/network_policy.py:72-73 | On a table in order of its deadlines, popping expired heads removes exactly the expired flows |
| Egress.FlowsStayOrderly | scripts/network_policy.py:70-86 | Over every run of frames and rules the table stays in order of its deadlines with at most 8192 distinct flows |
| Egress.FlowsGrounded | scripts/network_policy.py:80-85 | Every flow was opened by a SYN of the host to a forwarded port that was let through, and kept going since by frames that were |
| Egress.KeptIsLive | scripts/network_policy.py:80-85 | Conversely a flow so kept going is in the table until 3600 seconds after the last of those frames |
| Egress.GatewayVerdict | scripts/network_policy.py:112-137 | A guest packet for the gateway passes only as a reply on a live flow |
| EgressWire.GatewayTrafficIsForwarded | scripts/network_policy.py:70-143 | In every mode and across all updates a packet to the gateway that passes is the guest's, TCP, no bare SYN, and its flow was opened by an accepted host SYN and refreshed by accepted frames with no gap above 3600 seconds |
| Egress.KeptFlowsPass | scripts/network_policy.py:35-40 | Frames of a flow so kept going pass from both sides in every mode and across all updates, whatever else the rules and the limit on flows say |
| Egress.RepliesPassExactly | scripts/network_policy.py:35-143 | Over every run, a reply of the guest passes exactly when its flow was opened by the host and kept going since |
| EgressWire.EgressIsBounded | scripts/network_policy.py:107-143 | Whatever the order of the checks, a packet passes outward exactly if it is plain, carries the guest's address, and replies on a live flow or goes where the mode permits: to the resolver, a listed proxy, or an outward address that is admitted, public or configured |
| EgressWire.ArpExactly | scripts/network_policy.py:99-106 | Which ARP packets the guest may send, field by field |
| EgressWire.NothingElsePasses | scripts/network_policy.py:99-111 | A frame that is neither ARP nor IPv4 does not pass |
| EgressWire.ForwardedInbound | scripts/network_policy.py:78-88 | A segment for a forwarded port passes in every mode, unless it asks for one flow too many |
| EgressWire.InboundIsBounded | scripts/network_policy.py:89-98 | Other plain packets are refused offline; under an allowlist they pass from the resolver or an admitted address |
| EgressWire.QueryIsHeard | scripts/network_policy.py:92-125 | A DNS datagram is heard with the guest's port and the octets behind the UDP header, in both directions |
| EgressWire.SegmentIsHeard | scripts/network_policy.py:92-128 | The same of a segment over TCP, which is heard whole |
| NetworkPolicy.NetworkPolicy.Build | scripts/network_policy.py:11-33 | The constructor succeeds exactly when every proxy endpoint is public, foreign and has a valid port and proxy mode has endpoints and no extra rules |
| NetworkPolicy.NetworkPolicy.Update | scripts/network_policy.py:35-40 | An update replaces the rules and the allowlist or fails and changes nothing; flows and addresses stay |
| NetworkPolicy.NetworkPolicy.Expire | scripts/network_policy.py:72-73 | Expired heads are popped |
| NetworkPolicy.NetworkPolicy.AllowInbound | scripts/network_policy.py:75-98 | Decision, flows and what the allowlist sees for a frame from the host's side |
| NetworkPolicy.NetworkPolicy.AllowGuest | scripts/network_policy.py:111-143 | Decision, flows and what the allowlist sees for a packet of the guest |
| NetworkPolicy.NetworkPolicy.AllowOutbound | scripts/network_policy.py:99-111 | The same for any frame from the guest, with ARP and spoofed sources |
| NetworkPolicy.NetworkPolicy.Judge | scripts/network_policy.py:70-143 | The whole decision on one frame: expiry first, then the branch of its direction; the allowlist hears exactly what the decision says |
| NetworkPolicy.NetworkPolicy.Allow | scripts/network_policy.py:64-68 | One frame: expiry, decision, counter and history step together and keep the object valid |
| NetworkPolicy.CountedExactly | scripts/network_policy.py:67 | Exactly the counter of the decision and its reason goes up, by one |
| NetworkPolicy.NetworkPolicy.Resolve | scripts/network_allowlist.py:70-80 | Addresses resolved in advance join the allowlist's history and leave what it has heard as it is |
| Traffic.FollowedNext | scripts/network_policy.py:92-98 | After one more frame the allowlist has heard exactly the DNS frames let through since the last update, each decided by what had been heard before it |
| Traffic.HeardWasBrought | scripts/network_policy.py:92-130 | Every message in the history was carried or completed by a frame of the run that passed as DNS with the resolver |
| Traffic.EgressIsJustified | scripts/network_policy.py:70-143 | Over any run of frames under an allowlist the guest's packets go, besides replies on live flows and the resolver, only to foreign addresses in a configured network, resolved in advance, or justified by a response that an earlier frame of this run brought |
| Checksum.SumPads | scripts/service_network.py:26-27 | An odd last octet counts as if a zero followed it |
| Checksum.FoldIsResidue | scripts/service_network.py:29-30 | The fold terminates, fits 16 bits, keeps the residue modulo 65535 and is zero only for zero |
| Checksum.FoldCarry | scripts/service_network.py:29-30 | The carry loop computes the fold |
| Checksum.Compute | scripts/service_network.py:25-31 | The checksum, odd lengths included; it is zero exactly for data that verify |
| Checksum.VerifiesIsDivisible | scripts/service_network.py:25-31 | Data verify exactly when their sum is a positive multiple of 65535 |
| Checksum.SumSplice | scripts/service_network.py:45-47 | Writing over aligned words changes the sum by their difference |
| Checksum.ChecksumVerifies | scripts/service_network.py:46-47 | Writing the checksum into a zero field makes the data verify |
| Router.Write | scripts/service_network.py:44-47 | A slice assignment overwrites those octets and no others |
| Router.Route | scripts/service_network.py:34-65 | The in-place translation returns the routed frame, or nothing for a frame that is malformed or spoofed |
| Router.TranslatedKeeps | scripts/service_network.py:44-47 | Nothing changes but MAC addresses, header checksum and IP addresses |
| Router.TranslatedHeaderVerifies | scripts/service_network.py:46-47 | The header checksum verifies for every header length and whatever it was before (section 3.1 of RFC 791) |
| Router.PatchedBalances | scripts/service_network.py:58-64 | The incremental update balances the address change modulo 65535 (equation 3, section 3 of RFC 1624) and never sends a zero for UDP (RFC 768) |
| Router.RoutedPayload | scripts/service_network.py:48-65 | All other IP payload octets are unchanged, and the field is patched only where the frame holds it and UDP uses it |
| RouterWire.RoutedExactly | scripts/service_network.py:34-57 | Of all IPv4 packets exactly those are not routed that do not name the guest as their source or whose transport checksum would lie behind their end |
| RouterWire.OnlyPacketsRouted | scripts/service_network.py:36-41 | A frame that holds no IPv4 packet is not routed |
| RouterWire.RoutedIs | scripts/service_network.py:42-65 | The packet that is routed is the one that came but for MAC addresses, addresses, padding, a header checksum that verifies, and the two octets of the transport checksum, where a first fragment of TCP or UDP holds it |
| RouterWire.TransportStaysValid | scripts/service_network.py:48-65 | For every payload and fragmentation of TCP and UDP the checksum of the reassembled datagram verifies after translation exactly when it did before; a zero UDP checksum stays zero |
| ServiceDns.ReadQuestion | scripts/service_network.py:81-91 | The label loop reads exactly the uncompressed question |
| ServiceDns.MakeHeader | scripts/service_network.py:104-108 | The in-place header has the new length and addresses and its checksum |
| ServiceDns.Answer | scripts/service_network.py:68-109 | A reply is sent exactly for a whole UDP query of a name in the table, and is the reply frame |
| ServiceDns.ReplyIsReadable | scripts/service_network.py:81-109 | The allowlist's parser reads every frame that is sent: the question as the looked-up name up to 127 labels, the answer as the table's address up to 126 and no further, and no answer to other questions |
| ServiceDns.LegalNameIsAnswered | scripts/service_network.py:68-109 | The guest's query for any name of at most 255 octets on the wire is answered when the table has it, and the answer can be read exactly when the name has fewer than 127 labels |
| ServiceDns.LongestNameIsUnreadable | scripts/service_network.py:81-109 | A legal name of 127 labels exists, whose answer is sent and cannot be read |
| ServiceWire.QueryExactly | scripts/service_network.py:70-80 | Exactly which packets are looked at: a whole datagram from the guest to its resolver, port 53, with one question that is no response |
| ServiceWire.AnsweredExactly | scripts/service_network.py:68-109 | Such a datagram is answered exactly if it asks one question for a name in the table, and with the table's address |
| ServiceWire.OnlyQueriesAnswered | scripts/service_network.py:68-80 | No other frame is answered |
| ServiceDns.ReplyIsConsistent | scripts/service_network.py:101-109 | Both lengths match the octets, the header verifies, addresses and ports are swapped, and the identifier is repeated |
| ServiceDns.LengthsFit | scripts/service_network.py:103-105 | For frames of the link no length overflows its field |
| Hub.Hub.constructor | scripts/service_network.py:140-142 | A new hub has no members |
| Hub.Hub.Register | scripts/service_network.py:148-171 | A registration succeeds exactly when group, sockets and addresses are new; otherwise nothing changes |
| Hub.Hub.Add | scripts/service_network.py:173-192 | A member is added exactly when socket and address are new and each alias is free on its networks; otherwise nothing changes |
| Hub.Hub.Remove | scripts/service_network.py:194-208 | Succeeds exactly when no alias is listed twice by its only holder, and then takes the member out of every map; otherwise it stops at that alias with the earlier ones taken out |
| Hub.Hub.Unlist | scripts/service_network.py:202-206 | Which aliases are taken out, and exactly when the loop fails |
| Hub.Hub.Unregister | scripts/service_network.py:210-217 | A group and its members leave every map |
| Hub.Hub.Lookup | scripts/service_network.py:244-246 | The least address among the holders that share a network with the asker |
| Hub.Hub.VisibleNames | scripts/service_network.py:242-246 | The table of all names a member sees |
| Hub.Hub.Receive | scripts/service_network.py:222-261 | A datagram of a registered sender is answered, sent back or routed, and its origin is remembered; others are dropped |
| Hub.RegisteredConsistent | scripts/service_network.py:168-171 | Registering keeps the five maps consistent |
| Hub.AddedConsistent | scripts/service_network.py:188-192 | Adding keeps them consistent, and two holders of one alias never share a network |
| Hub.FreeExactly | scripts/service_network.py:180-187 | An alias is free exactly if nobody who has it shares a network with the newcomer |
| Hub.RemovedConsistent | scripts/service_network.py:197-207 | Removing keeps them consistent |
| Hub.UnregisteredConsistent | scripts/service_network.py:212-217 | Unregistering keeps them consistent |
| Hub.LearnedConsistent | scripts/service_network.py:228-235 | Remembered senders stay registered and stand for distinct sockets |
| Hub.VisibleIsReachable | scripts/service_network.py:242-261 | Every address a member is told is one its frames are forwarded to |
| Hub.DeliveryIsSymmetric | scripts/service_network.py:254-261 | A reply to the translated source reaches the original sender, from the address that was dialled |
| Hub.DeliveryIsIsolated | scripts/service_network.py:254-256 | Frames travel only inside a group and between members that share a network |
| HubWire.SenderExactly | scripts/service_network.py:227-237 | Which member a datagram is from: what is remembered of its sender, else its own socket, else the one its name resolves to |
| HubWire.SenderIsRemembered | scripts/service_network.py:230-235 | What is remembered stands for the same member the next time |
| HubWire.DeliveredExactly | scripts/service_network.py:254-261 | A packet is delivered exactly to the member of the sender's group that has its destination and shares a network, if translation carries it, from the sender's address and otherwise as RoutedIs says |
| HubWire.LookupIsAnswered | scripts/service_network.py:238-253 | A lookup of a name that someone holds whom the member reaches is answered to it with the least address of those |
| HubWire.LookupIsReturned | scripts/service_network.py:249-252 | Any other lookup goes back to the member unchanged |
| Hub.RemoveCanFail | scripts/service_network.py:202-206 | A consistent hub whose removal fails exists |
| CpuShares.LevelRises | scripts/cpu_broker.py:94-107 | The common level never falls as capped jobs leave |
| CpuShares.Cap | scripts/cpu_broker.py:104-107 | A round of capping keeps the books and removes exactly the capped jobs |
| CpuShares.Share | scripts/cpu_broker.py:100-103 | The last round gives every remaining job its weighted share of what is left |
| CpuShares.FillRates | scripts/cpu_broker.py:94-107 | The loop terminates with every job at one level or its cap, and the capacity used up or all capped |
| CpuShares.AllocateRates | scripts/cpu_broker.py:110-122 | The two passes, by demand and quota and then by quota alone |
| CpuShares.FilledIsFair | scripts/cpu_broker.py:94-107 | A pass is weighted max-min fair: more for any job is less for one that gained no more for its weight |
| CpuShares.FilledOnce | scripts/cpu_broker.py:94-107 | The outcome of a pass is determined whatever the order of jobs and rounds |
| CpuShares.AllocationIsComplete | scripts/cpu_broker.py:110-122 | No rate exceeds its quota, and the rates sum to the capacity unless every job is at its quota |
| CpuShares.AllocationIsUnique | scripts/cpu_broker.py:110-122 | The rates do not depend on the order of the jobs |
| CpuShares.AllocationHasLevels | scripts/cpu_broker.py:110-122 | Two levels give every rate: the first share up to demand and quota, plus the second up to the quota |
| CpuBroker.CreditIsBounded | scripts/cpu_broker.py:358-362 | Credit never exceeds one burst of the quota |
| CpuBroker.CreditBalance | scripts/cpu_broker.py:258-264 | From a decision point on, credit plus consumption never outgrow the quota's time |
| CpuBroker.QuotaHolds | scripts/cpu_broker.py:508-527 | Between any two decision points consumption is at most the quota's time plus one burst less the final credit |
| CpuBroker.CreditIsConserved | scripts/cpu_broker.py:258-264 | What refills granted is consumed or still credited, and none of it is lost if and only if no refill was cut off; no debt is forgiven |
| CpuBroker.CountedExactly | scripts/cpu_broker.py:258-262 | Sampling counts at least the elapsed counter, and exactly that if and only if it never falls |
| CpuDemand.WaitingIsSustained | scripts/cpu_broker.py:274-280 | Over any run, tasks counted as waiting were runnable at every sample of a window of at least 40 milliseconds |
| CpuDemand.ObservedIsAverage | scripts/cpu_broker.py:272-283 | Over any run, the observed rate is the average use while the job ran, over at least a tenth of a second |
| CpuDemand.SustainedIsWaiting | scripts/cpu_broker.py:274-280 | Conversely tasks that are runnable at every sample for two windows are counted |
| CpuDemand.ObservedExactly | scripts/cpu_broker.py:272-285 | A rate is observed exactly once the job has run for a tenth of a second |
| CpuDemand.ElapsedIsShort | scripts/cpu_broker.py:272-283 | No more than a tenth of a second of running is ever left out of the average |
| CpuBroker.SinceIs | scripts/cpu_broker.py:264 | The time a sample covers: none for the first, and none if the clock runs backwards |
| CpuBroker.Job.UpdateSample | scripts/cpu_broker.py:258-288 | A sample charges the counter's increase, moves the demand window, and sets demand, activity and pause |
| CpuBroker.Job.Observe | scripts/cpu_broker.py:266-285 | The window takes one step, and a paused job makes no observation |
| CpuBroker.Job.Charge | scripts/cpu_broker.py:262-263 | Consumed time counts against the credit |
| CpuBroker.Job.Refill | scripts/cpu_broker.py:358-362 | A refill adds the rate's time up to the burst or the accounting grain |
| CpuBroker.Broker.Describe | scripts/cpu_broker.py:508-512 | The active jobs are exactly the eligible, ready, unsuspended ones that are paused or recently active |
| CpuBroker.Broker.DecideOne | scripts/cpu_broker.py:513-527 | A failed job is let go; a suspended, waiting or idle one saves credit at its share of all processors within its quota and is let go; any other is refilled at its rate and to be paused exactly when in debt |
| CpuBroker.Broker.Tick | scripts/cpu_broker.py:508-527 | One decision point allocates the processors among the jobs that are ready, not suspended, and paused or lately active, decides on every job as `DecideOne` says, and takes the `Decide` step of the hand-off protocol |
| CpuBroker.SharesAddUp | scripts/cpu_broker.py:512-518 | The shares of idle jobs add up to all processors |
| PauseProtocol.StepInTouch | scripts/cpu_broker.py:409-426 | As long as no request to pause is given up, a held guest is known as paused or has its pause under way |
| PauseProtocol.StepQuiet | scripts/cpu_broker.py:508-527 | A released guest whose marker was seen stays released under every step, failures included |
| PauseProtocol.ReleasedForGood | scripts/cpu_broker.py:409-431 | After any run with any failed requests the guest stays free until the marker goes exactly when the scan saw it, the guest is free, and no pause that was given up is outstanding |
| PauseProtocol.HandOff | scripts/cpu_broker.py:481-539 | If no request to pause was given up before it, a report of not paused can be relied on until the marker goes, whatever fails afterwards, exactly when its scan saw a marker |
| PauseProtocol.ClientIsSafe | scripts/environment_control.py:39-71 | If no marker is created between a scan and its report, the client continues only while the guest is released and stays so |
| PauseProtocol.ClientExactly | scripts/environment_control.py:57-61 | Once the client continues, the guest stays free exactly when the last scan saw a marker and the guest is free now |
| PauseProtocol.TimesAreNotEnough | scripts/environment_control.py:60 | A marker created between scan and report passes the client's check although the guest can still be paused |
| PauseProtocol.FailuresBreakTheHandOff | scripts/cpu_broker.py:420-431 | The condition of `HandOff` is needed: after a request to pause is given up the check can pass, with the marker seen, while the guest is held |
| BuildStream.Source.Read | scripts/build_artifacts.py:21 | A read gives any positive number of octets, and none only at the end |
| BuildStream.Source.Exact | scripts/build_artifacts.py:18-25 | Short reads are completed, and exactly a stream that is too short fails |
| BuildStream.Source.ReceiveArchive | scripts/build_artifacts.py:66-80 | Chunks are read up to the end mark and accepted only with their digest |
| BuildStream.Receive | scripts/build_artifacts.py:61-85 | For every pattern of short reads the outcome depends on the octets alone |
| BuildStream.SendArchive | scripts/build_artifacts.py:28-44 | Frames every chunk, and sends the digest only after success |
| BuildStream.Export | scripts/build_artifacts.py:47-58 | Writes the stream of both archives, or stops after the chunks of the first producer that fails |
| BuildStream.FailuresAreRejected | scripts/build_artifacts.py:28-85 | The receiver accepts an export exactly when both producers succeeded |
| BuildStream.TransferRoundTrip | scripts/build_artifacts.py:28-85 | For every chunking the receiver gets both payloads back |
| BuildStream.OnlyStreamsAccepted | scripts/build_artifacts.py:61-85 | Whatever is accepted is what the sender writes for the payloads reported |
| BuildStream.PrefixesRejected | scripts/build_artifacts.py:84-85 | No accepted stream is a proper prefix of another |
| InputEvents.RaisedLowered | scripts/fast_io.py:37 | The shift table with the letters is injective, and what it leads to needs no shift |
| InputEvents.LoweredRaised | scripts/fast_io.py:37 | Every key whose character shift changes is reached, so the table is a bijection onto those keys |
| InputEvents.KeysymsApart | scripts/fast_io.py:62-68 | One-character symbols are injective and disjoint from the named keys text uses |
| InputEvents.CharTyped | scripts/fast_io.py:166-174 | The events of a character type that character and leave shift released |
| InputEvents.TextIsTyped | scripts/fast_io.py:162-174 | Replaying the events of any text types the text, CR read as LF |
| InputEvents.TextFits | scripts/fast_io.py:163-188 | A text of 2048 characters never meets the limit of 8192 events |
| InputEvents.GlideStaysBetween | scripts/fast_io.py:134-135 | Interpolated coordinates stay between the endpoints and end at the last, rounding half to even |
| InputEvents.GlidesOnScreen | scripts/fast_io.py:131-135 | A drag stays on screen and ends at its last point |
| InputEvents.ScrollIsEven | scripts/fast_io.py:144-148 | After every step each direction has sent the rounded-down share of its ticks |
| InputEvents.ScrollIsExact | scripts/fast_io.py:137-148 | A scroll sends exactly \|dx\| and \|dy\| ticks on the buttons of its directions and nothing else |
| InputReplay.ClickActsThere | scripts/fast_io.py:120-125 | Replayed, a click moves the pointer to its place and presses and releases there the right button, as often as it should; it is refused exactly off the screen |
| InputReplay.ScrollSent | scripts/fast_io.py:137-148 | A scroll is refused exactly above 1000 ticks; else it presses the button of each direction once for each tick, and no other |
| InputReplay.BetweenIsNearest | scripts/fast_io.py:135 | An interpolated coordinate is the integer nearest to its share of the way, the even one of two |
| InputReplay.DragActsThere | scripts/fast_io.py:126-136 | A drag presses its button at the first point and releases it at the last; it is refused exactly with fewer than two points or one off the screen |
| InputReplay.KeysGoDown | scripts/fast_io.py:179-181 | Keys go down in the order given, unless one is unknown |
| InputReplay.KeysComeUp | scripts/fast_io.py:182-184 | They come up in the reverse order |
| InputReplay.KeysSent | scripts/fast_io.py:175-184 | Which of both each keyboard gesture sends |
| InputReplay.KeysymExactly | scripts/fast_io.py:62-72 | One character stands for itself, by its code up to 255 and by Unicode above; other keys are looked up |
| InputReplay.NamedKeys | scripts/fast_io.py:166 | Which keys type line ends, tabs and backspaces |
| InputReplay.TextSent | scripts/fast_io.py:163-164 | Text is refused exactly above 2048 characters |
| InputReplay.ButtonsSent | scripts/fast_io.py:149-159 | Single buttons go down or up in the order given |
| InputReplay.BatchIsInOrder | scripts/fast_io.py:109-189 | A batch is the events of its gestures in order, the mouse before the keyboard in each item, and refused exactly if a gesture is or if they are more than 8192 |
| InputEvents.CompleteBatchIsNested | scripts/fast_io.py:109-189 | A batch of complete gestures is a well-nested word of presses and releases that leaves nothing pressed |
| InputEvents.AddText | scripts/fast_io.py:163-174 | The text loop appends the text's events or refuses |
| InputEvents.AddClicks | scripts/fast_io.py:120-125 | Moves and presses the right button the right number of times |
| InputEvents.AddGlide | scripts/fast_io.py:134-135 | Appends the eight interpolated points |
| InputEvents.AddDrag | scripts/fast_io.py:126-136 | Presses at the first point, glides through all others and releases |
| InputEvents.AddScroll | scripts/fast_io.py:137-148 | The step loop appends the scroll's ticks or refuses |
| InputEvents.AddButtons | scripts/fast_io.py:149-159 | Appends single presses and releases in order |
| InputEvents.AddDowns | scripts/fast_io.py:179-181 | Presses the keys in order or refuses an unknown one |
| InputEvents.AddUps | scripts/fast_io.py:182-184 | Releases the keys in reverse order or refuses an unknown one |
| InputEvents.AddMouse | scripts/fast_io.py:117-161 | Dispatches a mouse gesture |
| InputEvents.AddKeyboard | scripts/fast_io.py:162-186 | Dispatches a keyboard gesture |
| InputEvents.AddItem | scripts/fast_io.py:110-186 | Mouse gestures before keyboard gestures, each in order |
| InputEvents.EventsForAction | scripts/fast_io.py:92-189 | A batch compiles to the events of its items in order, or is refused whole, also above 8192 events |
| Mounts.TableHoldsLatest | scripts/filesystem_snapshot.py:27-35 | The mount table holds each identifier once, with its last line |
| Mounts.MountTable | scripts/filesystem_snapshot.py:27-35 | The loop builds that table |
| Mounts.Inventory | scripts/filesystem_snapshot.py:50-90 | The loop lists, skips or refuses each mount in order and compares the result with the launch spec |
| Mounts.AcceptsExactly | scripts/filesystem_snapshot.py:60-90 | The inventory succeeds exactly when no mount is refused, none is stacked, and those to list are the expected ones |
| Mounts.SucceedsExactly | scripts/filesystem_snapshot.py:50-90 | The same by what is mounted: every mount to list is a whole tmpfs of the spec, no two share a destination, and they are all tmpfs mounts of the spec outside the volatile directories |
| Mounts.SelfBindExactly | scripts/filesystem_snapshot.py:38-47 | A mount is a self-bind exactly if it and its parent go on from the same directory of one device in the same way |
| Mounts.VolatileExactly | scripts/filesystem_snapshot.py:12 | Which paths are made anew at boot |
| Mounts.SavedAsConfigured | scripts/filesystem_snapshot.py:76-83 | Each listed mount has the options of the spec's last word on its destination |
| Mounts.ListingCovers | scripts/filesystem_snapshot.py:60-83 | Every writable mount is listed, a self-bind, or rebuilt at boot |
| Mounts.ChainShowsTheSame | scripts/filesystem_snapshot.py:38-47 | Along self-binds every point below the first mount shows the same directory of the same device |
| Mounts.TableIsKeyed | scripts/filesystem_snapshot.py:27-35 | Any mount table that is read has one entry for each identifier |
| Mounts.NothingIsLost | scripts/filesystem_snapshot.py:50-90 | Every writable mount is joined by self-binds to one that shows the same files at every point and is listed, rebuilt, read-only or a self-bind of itself |
| Mounts.CircularIsRoot | scripts/filesystem_snapshot.py:38-47 | In a tree whose root may name itself as its parent only the root is a self-bind of itself |
| Mounts.ListedExactly | scripts/filesystem_snapshot.py:60-90 | A mount is listed exactly when it, or one stacked on its destination, was to be listed |
| Mounts.LostExactly | scripts/filesystem_snapshot.py:60-90 | Without stacks, files are listed or rebuilt exactly when the mount is rebuilt, or writable and no self-bind; otherwise a stacked mount is named |
| Mounts.SavedExactly | scripts/filesystem_snapshot.py:50-90 | Without stacks, a writable view's files are listed or rebuilt exactly when the end of its chain is not read-only, or is rebuilt |
| Mounts.ListIsExact | scripts/filesystem_snapshot.py:84-90 | The list is exactly the persistent tmpfs destinations outside the volatile paths, without repeats and numbered in order |
| Mounts.ReadOnlyBackingIsAccepted | scripts/filesystem_snapshot.py:64-73 | A table of the kind that loses files: a writable self-bind of a read-only mount is accepted with nothing listed |
| SnapshotVerify.Run.DigestOf | scripts/snapshot_store.py:175-198 | One digest: from a receipt, the cache or the file, or an error when the file changed |
| SnapshotVerify.Run.PinOf | scripts/snapshot_store.py:209-217 | Compares with the recorded hash, or with the frozen source on its own node |
| SnapshotVerify.Check | scripts/snapshot_store.py:200-231 | All comparisons in order, up to the first that fails |
| SnapshotVerify.CheckRuntime | scripts/snapshot_store.py:228-231 | Every runtime artifact must have its recorded hash |
| SnapshotVerify.Snapshot.Verify | scripts/snapshot_store.py:151-249 | One run from the old manifest and status to the new ones, with receipts reused only after a pass of the same snapshot |
| SnapshotVerify.DigestIsTrue | scripts/snapshot_store.py:175-198 | With a sound cache and true receipts a digest is the content's hash even if files change meanwhile |
| SnapshotVerify.DigestIsExact | scripts/snapshot_store.py:175-198 | While nothing moves a digest fails and succeeds as reading the file would, whatever is cached |
| SnapshotVerify.ExamineIsTrue | scripts/snapshot_store.py:200-238 | A run that gets through has found every file, the base image and every artifact with its hash, and leaves true receipts |
| SnapshotVerify.PassedIsTrue | scripts/snapshot_store.py:232-240 | A pass is deserved whatever happens meanwhile, and what it pins is true |
| SnapshotVerify.PassesExactly | scripts/snapshot_store.py:151-249 | While nothing moves a run passes exactly when the contents match, with or without receipts |
| SnapshotVerify.MatchesExactly | scripts/snapshot_store.py:200-231 | What a run demands of every file, the base image and every artifact, down to the signatures of the frozen source and its node |
| SnapshotVerify.PassLeavesReceipts | scripts/snapshot_store.py:197-240 | A pass leaves a receipt for every file it looked at, as it found it, and no other |
| SnapshotVerify.ReceiptSpares | scripts/snapshot_store.py:185-190 | A receipt for the very file spares reading it |
| SnapshotVerify.OtherReceiptsUnused | scripts/snapshot_store.py:185-188 | A receipt for another signature or another hash is as good as none |
| SnapshotVerify.ReadAcceptedExactly | scripts/snapshot_store.py:175-198 | Exactly when a file that has to be read is accepted: the one wanted, changed meanwhile at most in its change time, and that only of the base image or with the expected hash |
| SnapshotVerify.CheckedExactly | scripts/snapshot_store.py:216-218 | The status lists the files found right, in the order of the manifest, and all of them after a pass |
| SnapshotVerify.TrustedExactly | scripts/snapshot_store.py:159-166 | Receipts are taken from those handed over first, and from a pass of this very snapshot if told to |
| SnapshotVerify.PassMeans | scripts/snapshot_store.py:209-235 | After a pass every file, the base image and every artifact was found with its recorded hash or that of its unchanged frozen source, and a rewritten manifest records what was found |
| SnapshotVerify.ReceiptsStayTrue | scripts/snapshot_store.py:162-197 | Over any sequence of runs and crashes every stored receipt is true |
| SnapshotVerify.PinsNeverChange | scripts/snapshot_store.py:217-235 | Over any sequence of runs and crashes a pinned hash never changes |
| SnapshotVerify.RefusalIsExact | scripts/snapshot_store.py:72-77 | A completed run refuses the snapshot exactly when it failed, and a crash before success changes nothing |
| SnapshotVerify.FailureIsRemembered | scripts/snapshot_store.py:168-169 | A failed snapshot stays refused until a run gets through every comparison |
| SnapshotVerify.ReceiptsServeNext | scripts/snapshot_store.py:42-43 | Receipts of a pass serve the next run exactly when the snapshot has an identifier, or its manifest is not rewritten or had every hash recorded |

## Left out

- Configuration text: `entries` and `ipaddress` parsing (networks are ranges, the kinds of addresses a function), the mount table's text and escapes (paths are sequences of components), the manifest's JSON.
- Threads, locks, sockets and the clock: each operation runs whole under its lock with one clock reading, and the clock is positive; the resolver's results and the sender's resolved path are inputs.
- Allowlist.Allowlist.Resolve: runs whole; in the source other traffic may be observed between two rules, which the theorems about histories cover, since each lookup is an event of its own.
- NetworkPolicy.NetworkPolicy.Update: the registry of address kinds does not change between two configurations.
- Floating point: rates, credit and times are reals.
- The demand estimate of the legacy backend (`update_demand`, `runnable_threads`) and the accounting of helper processes, whose time is part of the counter.
- CpuBroker.Broker.Tick: job discovery, the refresh of registrations and the report are not part of it.
- The legacy CPU backend, process discovery, the registration files and the retry times of the broker.
- PauseProtocol.HandOff: follows one job; a lease that expires may free the guest at any time.
- The client's other way out of its wait, a registration that has been removed, and its timeout.
- SHA-256: an arbitrary function of the octets with results of 32 octets, or of a file's identity.
- Files and processes around the transfers: temporary names, renames, `fsync`, the `tar` processes; `extract_helpers`.
- Malformed shapes of actions (wrong JSON types, unknown kinds) and the named-key tables, which are a map of names to symbols; characters are Unicode scalar values.
- SnapshotVerify.Snapshot.Verify: the metadata checks of `inspect` and the validation of the runtime are inputs, timestamps and the cleanup of staging files are not modelled, and the file system is what each look finds.
- SnapshotVerify.PassedIsTrue: assumes that device, inode, size and modification time determine a file's content.
- Export of snapshots, restore paths, the runtime store and GPU helpers: mostly file system and process plumbing.
