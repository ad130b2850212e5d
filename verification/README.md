# Host discovery and latency measurement: a verified model

The program modelled here finds hosts on a local network by mDNS and measures the delay to each of them.
Every host probes for a name of its own, answers questions about its name and its services, asks
periodically who offers them, keeps a table of what it hears until the records expire, and measures
listed hosts by UDP, TCP and ICMP.

The model has three layers.

* **Values.** `Shared`, `MdnsFields`, `DomainNames`, `Messages` (bytes on the wire), `CandidateNames`,
  `Computers`, `ComputerCache`, `HostModel` (one process as a value), `IcmpChecksum`, `IcmpClient`, `Ui`.
  Each component's effect is a function from old state to new state and packets.
* **Classes.** `Daemon` holds the globals and the classes `MdnsClient`, `MdnsServer`, `NameServer`;
  `Computers.Computer`, `ComputerCache.ComputerTable`, `ComputerCache.MeasurementServer`, `IcmpClient.IcmpClient`,
  `Ui.TcpConnection` and `MdnsFields.Record` are the other objects that change in place. Their methods, with the
  loops of the source, are proved to do what the functions say.
* **Networks.** `Discovery`, `Settling`, `CacheSoundness`, `CacheHistory`, `Uniqueness`, `Crowd` and `Exploration`
  run any number of hosts. A receiver is given the bytes the sender wrote, followed by arbitrary older bytes,
  and parses them; runs are arbitrary sequences of events, and an event that can not happen changes nothing.

## The timer

`expires_from_now` cancels a live wait, whose handler is then queued with `operation_aborted`; a wait that
has already expired stays queued without an error and can not be cancelled. `send_probes` ignores its error
code, so it also runs for aborted waits, sends probes, and arms the timer again. Queued handlers may run in
any order.

## Main results

* On a network that loses, repeats and reorders packets at will, a host among N tries at most N names, and
  hosts with one hostname can need all N. Its waits expire and its handlers run at most four times for each
  name; after that it has one. A name once set is final, a name given up never counts again, and every
  table entry describes the host at its address.
* On such a network no two hosts ever own the same name, in any run, if and only if the hostnames are
  distinct. With any hostnames, names are unique if each host sets its name only after the probes for it
  and the objections have arrived.
* In every run a host has a name only after it has asked for it and then waited until that wait expired by
  itself; and it has told its address under each of its services.
* In any run, one round of question, pointer, question and address, each arriving at any later time, lists
  a named host with the asker; and it stays listed for two of its exploration periods after it was last heard.
* However the queued handlers of aborted waits re-arm the timer, only a bounded number of them can run.
* Names, headers, questions and answers survive the trip through the bytes; compressed and plain pointer
  records mean the same; the reader that follows pointers never returns if and only if it comes back to an
  octet it has visited before.
* The reader looks behind a packet if and only if it comes to the packet's last octet as to the first octet of a
  pointer. What any other packet means depends on its own octets alone; this program sends no others.
* In every run a host's table is what the address records delivered to it and its sweeps make of it; after each
  sweep, which erases entries while it walks the table, it lists exactly the addresses with an unexpired
  record, and exactly these have been measured.
* Windows, checksum, outstanding echo requests and the layout of the table are exact under bounds that are
  themselves shown to be tight, or with the exact condition for being right.

## Where the code departs from what its text suggests

The model follows the code.

* `QR()` masks 0xA0 and the unicast test masks 0xA000 (mdns_fields.h:26, mdns_server.cc:95): `QrMisread` and
  `QuMisread` tell exactly what they misread.
* The comment at mdns_fields.cc:42-45 says only pointers to the question's name are accepted. The check also
  lets pointers into the middle of a label pass, and the loop need not end: `PointerLoopHangs`, with the
  exact condition in `HangsIffRevisits`.
* A pointer's second octet is read as a signed `char` (mdns_fields.cc:41), as on x86-64:
  `PointerTargetIsOffset`.
* The end reported after a pointer lies one octet too far (mdns_fields.cc:40): `PointerIntoQname`. Its only
  caller drops it.
* A packet that ends in an octet from 0xC0 up, which its reader comes to, makes mdns_fields.cc:41 take the octet
  behind the packet: one left over from an earlier packet, or behind a full 1500-octet buffer foreign memory.
  `OverreadsExactly` says when, `MeaningOfThePacket` that nothing else does, and `CutPacketMeans` has a packet
  that asks two different questions.
* RDLENGTH of a compressed pointer record is one too small (mdns_server.cc:263): `RdLengthIsLength`. The
  program's own reader does not use it.
* `compression_occured` (mdns_fields.cc:28) is left uninitialised by the source and taken to start false; it
  influences nothing but the reported end, which is dropped: `RealEndIrrelevant`.
* A query for the root at a named host, and a root record of a new address, make the code take the first label
  of an empty name (mdns_server.cc:104, computer.cc:18): `UndefinedPackets`. No such packet arises among hosts
  that run this program: `RunsAreDefined`.
* Every pointer sent to the mDNS port has the cache-flush bit (mdns_server.cc:236), which section 10.2 of RFC 6762
  forbids on shared records; and no legacy answer repeats the question (mdns_server.cc:198), which section 6.7
  demands. `DeparturesFromRfc6762` says exactly when an answer is as the RFC asks.
* The 32-bit sum of three averages in `refresh` can wrap, and then the maximum it divides by can be zero
  (ui.h:100-102): `DividesExactly`.
* `start_line < lines.size() - 1` (ui.h:151) is always true of an empty table, so the user's line runs away from
  it: `StaysOnRows`.
* The indentation in `refresh` is a wrapped product cast to an octet (ui.h:102): `SpacesExactly`.
* Nothing makes names unique on a network that is slow compared with the waits of probing:
  `UniqueIffHostnamesDistinct`.

## Model

| member | source | states |
|---|---|---|
| Shared.WhichMyService | shared.cc:20-32 | the three labels from `start` name the service found, in both directions; ssh only for a host that announces it; later labels do not matter |
| MdnsFields.Get16Inverts | mdns_fields.h:134-141 | a 16-bit field reads back as written, at any offset of any buffer |
| MdnsFields.Get32Inverts | mdns_fields.h:92-106 | a 32-bit field reads back as written |
| MdnsFields.Get64Inverts | computer.cc:118-146 | a 64-bit time of sending reads back as written |
| MdnsFields.Weights | mdns_fields.h:101-106 | the octets of a written field, weighted from the highest down, sum to its value |
| MdnsFields.QrMisread | mdns_fields.h:26 | the response test misreads exactly the queries with the second opcode bit set, such as flags 0x2000 |
| MdnsFields.QuMisread | mdns_server.cc:95 | the unicast test misreads exactly the classes with bit 13 set and the top bit clear, such as 0x2001 |
| MdnsFields.Record.constructor | mdns_fields.h:22 | a record starts as zeros |
| MdnsFields.Record.Encode16 | mdns_fields.h:53-56 | the two octets of a field are replaced, all others stay |
| MdnsFields.Record.Encode32 | mdns_fields.h:101-106 | the four octets of a field are replaced, all others stay |
| MdnsFields.Record.Read | mdns_fields.h:81-85 | a record is copied and the position advanced exactly when it lies inside the packet |
| DomainNames.ReadName | mdns_fields.cc:3-21 | the loop computes the recursive parse, errors included |
| DomainNames.ReadNameInverts | mdns_fields.cc:3-21 | for every NUL-free label list with lengths 1 to 255, reading what was written at any offset gives the labels and stops just past the terminator |
| DomainNames.LabelsAreCut | mdns_fields.cc:3-56 | both readers keep of a label the octets before its first NUL |
| DomainNames.ReadCompressableName | mdns_fields.cc:23-62 | on every input on which the loop ends within its buffer it computes the recursive parse with pointers, the reported end included |
| DomainNames.HangsIffRevisits | mdns_fields.cc:30-56 | the loop never ends if and only if some octet it comes to leads back to itself |
| DomainNames.EndsWithinSize | mdns_fields.cc:30-56 | for every packet the loop ends if and only if it ends within `size + 1` turns |
| DomainNames.PointerLoopHangs | mdns_fields.cc:38-47 | a packet whose question is accepted and whose answer's name is never finished, although its pointer passes the range check |
| DomainNames.RealEndIrrelevant | mdns_fields.cc:28 | the flag that starts uninitialised influences nothing but the reported end |
| DomainNames.TurnLooksOnlyThere | mdns_fields.cc:30-56 | the octets a turn of the loop looks at decide it |
| DomainNames.OverreadsExactly | mdns_fields.cc:38-41 | the reader looks at an octet behind the packet if and only if it comes to the last octet as to a pointer; and never at more than one |
| DomainNames.OverreadsIsOfThePacket | mdns_fields.cc:38-41 | whether it does is decided by the packet alone |
| DomainNames.ReadsOnlyThePacket | mdns_fields.cc:23-62 | otherwise the result does not depend on what is left over behind the packet |
| DomainNames.OverreadChangesTheName | mdns_fields.cc:41 | a packet whose answer's name is "a" or empty, as the octet left over says |
| DomainNames.PointerTargetIsOffset | mdns_fields.cc:41 | the decoded target is the 14-bit offset of RFC 1035 exactly when the second octet is below 0x80 |
| DomainNames.PointerOutside | mdns_fields.cc:46-47 | a pointer to a place outside the question's name, as the code bounds it, is refused |
| DomainNames.ReadersAgreeOnPlainNames | mdns_fields.cc:3-56 | with all length octets below 0xC0 both readers give the same labels, end and failure |
| DomainNames.PointerIntoQname | mdns_fields.cc:38-62 | a pointer to any label boundary of the question's name is followed once; the result is the prefix labels and exactly the matching suffix |
| DomainNames.FollowPrefix | mdns_fields.cc:50-55 | labels before a pointer are collected in order, then exactly one jump is made |
| DomainNames.ParseFromBoundary | mdns_fields.cc:6-18 | reading from the k-th label boundary gives the labels from the k-th on |
| Messages.HeaderFields | mdns_server.cc:191-202 | the first twelve octets of every packet hold identifier, flags and counts at the offsets of section 4.1.1 of RFC 1035 |
| Messages.QueryOctets | mdns_client.h:16-47 | every octet of a query, as a literal |
| Messages.ResponseOctets | mdns_server.cc:188-271 | every octet of a response but its names and data: header, type, class, time to live |
| Messages.RdataOctets | mdns_server.cc:240-271 | the octets of the data and of its length, in all three forms |
| Messages.QueryMeans | mdns_server.cc:66-77 | a packet of any program with a readable name and four more octets is a query with the identifier, type and class that stand in it |
| Messages.AddressMeans | mdns_server.cc:116-173 | an A record of any program is received with the time to live and address that stand in it |
| Messages.QueryRoundTrip | mdns_client.h:16-47 | the bytes of every query are received as a query for that name, type and class 1 |
| Messages.AResponseRoundTrip | mdns_server.cc:188-252 | the bytes of every A response are received with the same full name, time to live and address |
| Messages.CompressedRdata | mdns_server.cc:262-266 | the compressed name's pointer to offset 12 always passes the range check and is expanded to the host's full name |
| Messages.PtrResponseRoundTrip | mdns_server.cc:215-271 | compressed and plain PTR responses are both received as the same full name |
| Messages.RdLengthIsLength | mdns_server.cc:263-270 | RDLENGTH is the length of the data exactly when the response is not a compressed PTR response |
| Messages.MeaningOfThePacket | mdns_server.cc:50-142 | a packet that does not overread means the same whatever is left over behind it, and overreading is decided by the packet |
| Messages.CutPacketMeans | mdns_fields.cc:41 | one packet, received as a pointer to "a" or to the root |
| Messages.LoopingPacketMeans | mdns_server.cc:132-142 | the looping packet reaches the loop through the whole receive path |
| CandidateNames.DecimalInjective | name_server.cc:27-30 | different numbers print differently |
| CandidateNames.CandidateInjective | name_server.cc:26-30 | different numbers give different candidate names |
| CandidateNames.DecimalReads | name_server.cc:27-30 | what is printed are decimal digits that evaluate to the number |
| CandidateNames.CandidateReads | name_server.cc:26-30 | the hostname first, then the hostname with the number in parentheses |
| CandidateNames.CandidatePlain | name_server.cc:26-30 | no candidate of a hostname is longer than 111 bytes or holds a NUL, over the whole range of the counter |
| Computers.PushKeepsWindow | computer.cc:56-63 | pushing a sample onto the window of the last ten gives the window of the last ten, with its sum modulo 2^32, across wrap-around |
| Computers.AverageExact | computer.cc:69-85 | the average is the true one if and only if the window's true sum fits 32 bits, and then lies between the smallest and largest sample |
| Computers.NamesExactly | computer.cc:34-44 | a record counts for a service if and only if its name is some label before the service's three |
| Computers.ProbesAre | computer.cc:46-53 | exactly which measurements a mark sets off, and what they carry |
| Computers.WindowsHoldRecentSamples | computer.cc:56-106 | in every life of an entry, for each kind of delay, the window holds the last ten samples since its service was last found expired, and the leave time is that of the latest record |
| Computers.Computer.constructor | computer.cc:7-28 | a new computer is named by the record's first label and has that record's service only |
| Computers.Computer.AddService | computer.cc:34-44 | only a four-label full name of a service marks it and sets its leave time |
| Computers.Computer.VerifyTtl | computer.cc:91-106 | expired services lose their mark and their windows; tells whether any is left |
| Computers.Computer.NotifyIcmp | computer.cc:56-63 | one sample enters the ICMP window, nothing else changes |
| Computers.Computer.Measure | computer.cc:46-53 | measurements are set off for the marked services and no others; the UDP request carries its time of sending |
| Computers.Computer.HandleReceiveUdp | computer.cc:138-169 | a reply of the right size adds the time elapsed since the time in its first eight octets to the UDP window; any other changes nothing |
| Computers.Computer.HandleConnectTcp | computer.cc:185-206 | a connection adds the elapsed time to the TCP window; an error changes nothing |
| Computers.Computer.GetUdpAverage | computer.cc:69-73 | for whatever UDP samples the window holds the last ten of: their true mean if and only if their sum fits 32 bits |
| Computers.Computer.GetTcpAverage | computer.cc:75-79 | for whatever TCP samples the window holds the last ten of: their true mean if and only if their sum fits 32 bits |
| Computers.Computer.GetIcmpAverage | computer.cc:81-85 | for whatever ICMP samples the window holds the last ten of: their true mean if and only if their sum fits 32 bits |
| ComputerCache.ComputerTable.Receive | mdns_server.cc:165-172 | a record creates an entry or adds a service to the one at its address; all other entries stay |
| ComputerCache.ComputerTable.MeasureOne | measurement_server.h:18-24 | one entry is checked, then kept and measured or erased; all others stay; the iterator moves to the next key of the table as it is |
| ComputerCache.ComputerTable.Measure | measurement_server.h:17-25 | the erasing walk, with a clock reading at each stop, leaves exactly the swept table, visits its keys in order, and sets off the measurements of what it keeps |
| ComputerCache.MeasurementServer.Measure | measurement_server.h:16-28 | the table is swept, and the timer is armed for the next time |
| ComputerCache.MeasurementServer.constructor | measurement_server.h:10-12 | a new server sweeps at once |
| ComputerCache.WalkVisitsOnce | measurement_server.h:17 | a walk visits the keys in ascending order, every one of them once |
| ComputerCache.ReadAtEach | measurement_server.h:17-18 | each stop of the walk has its own reading of the clock |
| ComputerCache.SweepMeasuresListed | measurement_server.h:18-20 | a measurement is set off by a sweep if and only if the swept table lists its computer with that service |
| ComputerCache.ProbesInOrder | measurement_server.h:17-20 | measurements of later stops come later |
| ComputerCache.CacheTracksLog | computer.cc:34-44 | at any time, marks and leave times agree with the latest records of a chronological log |
| ComputerCache.FiledUnderAddress | mdns_server.cc:165-172 | each entry has the address it is listed under, and its measurements go there |
| ComputerCache.SweptCacheIsExact | measurement_server.h:16-28 | after a sweep the keys are exactly the addresses whose latest record of some service was unexpired when the sweep came to them, and the marks exactly those services |
| HostModel.NotifyKeeps | name_server.cc:19-31 | moving on gives a name never tried before, keeps the invariant and leaves a wait pending |
| HostModel.RunReadyKeeps | name_server.cc:47-79 | running any queued handler keeps the invariant, never changes a set name, and never leaves an unnamed host without a pending step |
| HostModel.StaleSuccessIgnored | name_server.cc:67-78 | a `success` handler sets the name if and only if it was not aborted and is for the current candidate |
| HostModel.NameTakenAfterWait | name_server.cc:47-79 | in every run of a host among arbitrary packets, it has a name only if a wait for the verdict on that name expired by itself |
| HostModel.HandlersAreConserved | name_server.cc:24-79 | in every run each wait's handler, aborted or not, runs exactly once or is still to run; one wait is armed for each name and each probe handler |
| HostModel.ProbesAlways | name_server.cc:47-65 | a probe handler, aborted or not, asks for the name under every service to be offered, and waits for the verdict |
| HostModel.ConflictCountsOnce | mdns_server.cc:144-153 | in every run of a host among arbitrary packets, all A records for a name together, of either service, made it move on exactly once if it has given that name up, and never otherwise |
| HostModel.HostStepKeeps | mdns_server.cc:147-153 | nothing but an A record for the name being probed makes a host move on, and then by one |
| HostModel.AnswerMatches | mdns_server.cc:100-112 | there is one answer if and only if the host has a name and the question is for its address under, or for providers of, a service it offers |
| HostModel.AnswersSuitTheAsker | mdns_server.cc:79-111 | a received query is answered if and only if it is for this host; a legacy answer has the endpoint, identifier, class and time to live that section 6.7 of RFC 6762 asks for, any other has identifier 0 and always the cache-flush bit |
| HostModel.AnswerToPacket | mdns_server.cc:66-112 | from octets to octets: a legacy answer repeats the query's first two octets and returns to its sender, the class's top bit brings a unicast answer, otherwise the group is answered |
| HostModel.ResponsesThatCount | mdns_server.cc:114-129 | a response from another port or by unicast changes neither name nor table; a pointer that counts leads to one question |
| HostModel.DroppedUnread | mdns_server.cc:324-334 | packets of impossible sizes and unicast from outside the network change nothing |
| HostModel.SamePrefix | mdns_server.cc:330 | under the mask of a prefix, being from the local network is agreeing in the prefix |
| HostModel.AnnouncedRecords | mdns_server.cc:18-22 | one address record for each service offered and no other, to the group, for two periods of exploration |
| HostModel.DeparturesFromRfc6762 | mdns_server.cc:191-238 | an answer's cache-flush bit is as sections 10.2 and 6.7 of RFC 6762 ask if and only if it is not a pointer to the mDNS port; questions are repeated as sections 6 and 6.7 ask if and only if the query came from that port |
| HostModel.AnnouncedBits | mdns_server.cc:18-22 | announcements have the bit, as they should |
| HostModel.UndefinedPackets | mdns_server.cc:104 | three packets, and exactly when the program is not defined on them |
| HostModel.UndefinedExactly | mdns_server.cc:104 | of each kind of message, exactly when the program is not defined on it |
| HostModel.RunReadyWorks | name_server.cc:47-65 | every queued handler that runs, re-arming or not, leaves less work |
| HostModel.DrainBounded | name_server.cc:24-79 | in whatever order queued handlers run, at most `Work` of them run before the queue is empty |
| HostModel.DrainAllIsDrain | name_server.cc:24-79 | running the oldest handler until none is left is one of these orders, and does end |
| HostModel.TimerEventsCharge | name_server.cc:24-79 | each wait that expires and each handler that runs leaves strictly less to do |
| Daemon.Globals.SendPtrResponse | mdns_server.cc:293-302 | a delayed response goes out unchanged |
| Daemon.WriteQuery | mdns_client.h:21-47 | the writer's loop produces header, name, type and class |
| Daemon.WriteNames | mdns_server.cc:216-228 | the double loop produces the full name and the question's name |
| Daemon.WriteResponse | mdns_server.cc:188-271 | the writer produces the response's bytes, in all three forms |
| Daemon.MdnsClient.SendQuery | mdns_client.h:16-57 | one query goes to the group |
| Daemon.RenderIs | mdns_client.h:16-57 | one datagram for each packet, in order, queries to 224.0.0.251 port 5353 |
| Daemon.MdnsClient.constructor | mdns_client.h:12-14 | a new client has asked once and will ask again |
| Daemon.MdnsClient.AskForServices | mdns_client.h:61-70 | two PTR queries go out, and the timer is armed to ask again |
| Daemon.MdnsServer.SendResponse | mdns_server.cc:175-291 | one response with the right fields goes to the right endpoint; a PTR response is delayed |
| Daemon.MdnsServer.AnnounceName | mdns_server.cc:18-22 | an A response for each announced service |
| Daemon.MdnsServer.YieldName | mdns_server.cc:147-153 | an unnamed host moves on exactly if the record's name is its candidate with a service |
| Daemon.MdnsServer.HandleAResponse | mdns_server.cc:144-173 | conflict and table entry, as the value model says |
| Daemon.MdnsServer.HandlePtrResponse | mdns_server.cc:132-142 | a readable name is asked for, an unreadable one ignored |
| Daemon.MdnsServer.NoteAsker | mdns_server.cc:79-98 | what is remembered of the asker, and how to answer |
| Daemon.MdnsServer.Answer | mdns_server.cc:100-112 | the answer to a query, or none |
| Daemon.MdnsServer.ReceiveUniversal | mdns_server.cc:50-130 | state, packets sent and packets delayed are those of the value model on the decoded message |
| Daemon.MdnsServer.HandleReceive | mdns_server.cc:32-48 | errors, wrong sizes and unicast from outside the local network change nothing; otherwise as the value model says |
| Daemon.NameServer.constructor | name_server.cc:14-17 | starts probing the hostname |
| Daemon.NameServer.SendQuery | name_server.cc:24-45 | sets the candidate for the number and re-arms the timer |
| Daemon.NameServer.Notify | name_server.cc:19-22 | advances the number by one and starts probing again |
| Daemon.NameServer.SendProbes | name_server.cc:47-65 | probes for every announced service and re-arms the timer for the verdict |
| Daemon.NameServer.Success | name_server.cc:67-79 | sets and announces the name unless aborted or stale |
| Daemon.NameServer.RunHandler | name_server.cc:42-79 | a queued handler is removed and run, as the value model says |
| Daemon.NameServer.RunAllHandlers | name_server.cc:42-79 | running queued handlers until none is left ends in the state, and has sent the packets, that the value model says |
| Daemon.Boot | opoznienia.cc:204-207 | a freshly started process is the start state of the value model, having asked for services |
| Discovery.Understood | mdns_server.cc:50-129 | whatever a host sends, any receiver decodes as what was meant, whatever else is in its buffer |
| Discovery.RunsAreDefined | mdns_server.cc:50-130 | in no run does a packet arrive that overreads, loops, or lacks a first label where one is taken |
| Discovery.NumberBounded | name_server.cc:19-22 | names given up have distinct owners, none of them the host itself, so the number is at most the number of hosts |
| Discovery.StepKeepsInv | mdns_server.cc:50-173 | every event keeps the system invariant |
| Discovery.AtMostAsManyNamesAsHosts | name_server.cc:19-31 | in every run each host's number stays between 1 and the number of hosts |
| Discovery.ProbingNeverStalls | name_server.cc:24-79 | in every run an unnamed host has a live wait, a queued probe handler, or a valid verdict for its name |
| Discovery.NamedAfterEnoughTimerEvents | name_server.cc:24-79 | in every run a host's waits expire and its handlers run at most four times for each name it tries, 4 N times in all; then it has a name, and before that such an event is always possible |
| Discovery.SeenFromOneHost | mdns_server.cc:50-130 | every run of the network is, for one host, a run among arbitrary packets |
| Discovery.GivenUpForGood | mdns_server.cc:147-153 | once a host has given up a name, no record for it, whoever sends it and whatever happened since, changes its number |
| Discovery.NameIsFinal | mdns_server.cc:147-153 | in every run a set name never changes |
| Settling.NamesAreEarned | name_server.cc:47-79 | in every run a host that has a name has first asked for it under each service, then waited until the wait expired by itself, and has told its address under each service |
| CacheSoundness.DiscoveryIsSound | mdns_server.cc:155-172 | in every run, with distinct addresses, an entry carries the final name of the one host at its address, and ssh is marked only if that host announces it |
| CacheHistory.TableIsItsLog | mdns_server.cc:155-172 | in every run a host's table is what the address records delivered to it and its sweeps make of an empty one |
| CacheHistory.SweptTableIsExact | measurement_server.h:16-28 | so, with a clock that does not run backwards, after each full sweep in any run it lists exactly the addresses and services of which the latest record was unexpired |
| CacheHistory.HeardHostsStayListed | mdns_server.cc:239-241 | in every run with distinct addresses, a host stays listed with a service for two of its exploration periods after it was last heard, so one lost round is survived |
| CacheHistory.SweptTableListsTheRecent | measurement_server.h:16-28 | after a full sweep it is listed with the service if and only if it was heard that recently |
| Uniqueness.FastRunsAreRuns | mdns_server.cc:24-48 | every run on the fast network is a run on the arbitrary one |
| Uniqueness.NamesAreUnique | name_server.cc:47-79 | if hosts set their names only after the probes for them and the objections have arrived, no two hosts own the same name, in any run, whenever they join |
| Uniqueness.SlowNetworksAllowClashes | name_server.cc:67-78 | otherwise any two hosts with the same hostname can both own it |
| Uniqueness.NeverRenamed | name_server.cc:26-30 | among hosts with distinct hostnames none ever leaves its hostname behind |
| Uniqueness.UniqueIffHostnamesDistinct | name_server.cc:24-79 | on an arbitrary network names are unique in every run if and only if the hostnames are distinct |
| Crowd.BoundIsReached | name_server.cc:19-31 | among N hosts with one hostname the last can end up with the number N |
| Exploration.NamedHostsAreFound | mdns_client.h:61-66 | in every run, when question, pointer, question and address arrive, each at any later time and whatever happens in between, the asker lists the named host with its service, leave time and name |
| IcmpChecksum.AddBody | icmp_header.hpp:82-88 | the loop adds the body's big-endian words, the last one padded, in 32 wrapping bits |
| IcmpChecksum.ComputeChecksum | icmp_header.hpp:75-93 | the checksum field is replaced by the computed checksum, the rest of the header stays |
| IcmpChecksum.TwoFoldsSuffice | icmp_header.hpp:90-92 | for every 32-bit sum two folds give its one's complement value |
| IcmpChecksum.OnesSumIsTotal | icmp_header.hpp:75-93 | word-by-word addition with end-around carry is the ordinary sum reduced once |
| IcmpChecksum.ChecksumVerifies | icmp_header.hpp:75-93 | for every body the stored checksum verifies if and only if the accumulator wrapped a multiple of 65535 times |
| IcmpChecksum.ChecksumRefinesRfc1071 | icmp_header.hpp:75-93 | up to 131068 bytes the accumulator never wraps, the result is the complement of the RFC 1071 sum, and the message verifies |
| IcmpChecksum.LongerBodiesFail | icmp_header.hpp:79-88 | of the function template alone, which takes any body: one of 131069 bytes, one more than the bound, whose checksum does not verify; no IP packet holds it |
| IcmpClient.IcmpClient.Measure | icmp_client.cc:13-44 | the next number is used, an outstanding start time is kept, and the packet's words verify |
| IcmpClient.IcmpClient.HandleIcmpReceive | icmp_client.cc:57-98 | only a matching echo reply retires a request and adds the elapsed time to a known computer's window |
| IcmpClient.MatchExactly | icmp_client.cc:73-93 | octet by octet, which messages answer an outstanding request |
| IcmpClient.RepliesMatch | icmp_client.cc:86-93 | a request's packet turned into a reply answers exactly that request; looped back unchanged it answers none |
| IcmpClient.SequenceCounts | icmp_client.cc:27 | the number in use is the count of requests modulo 2^16 |
| IcmpClient.StartsAreEarliestOpen | icmp_client.cc:27-36 | over every log a number is outstanding exactly when a request with it is unanswered, and its time is that of the earliest one |
| IcmpClient.RepliesNeverOutnumber | icmp_client.cc:86-96 | accepted replies to a number never outnumber requests with it |
| Ui.SumAndCount | ui.h:66-73 | the 32-bit sum and the number of the measured averages |
| Ui.LargestAverage | ui.h:58-79 | the first pass finds the largest average |
| Ui.TcpConnection.Refresh | ui.h:56-124 | both passes over the table's averages fill the rows with their texts, and the user's page of the sorted rows is written; needs only that no division by zero happens |
| Ui.WriteRow | ui.h:104-122 | a row's text: address, blanks, three delays or dashes |
| Ui.TcpConnection.WriteLines | ui.h:127-143 | rows are sorted in place, and the message is the page at the user's line, row below row |
| Ui.PageIs | ui.h:127-136 | the page holds the rows from the user's line on, 24 at most, none left out |
| Ui.TcpConnection.Write | ui.h:146-168 | a key moves the user's line, and the page is written anew if it did |
| Ui.EveryRowIsReached | ui.h:127-155 | scrolling down brings every row to the top of a page |
| Ui.UpUndoesDown | ui.h:149-162 | the key for up undoes the key for down and stops at the first line; other keys do nothing |
| Ui.StaysOnRows | ui.h:149-162 | no sequence of keys leaves the rows, if there are any; on an empty table the line runs away |
| Ui.ScreenReads | ui.h:128-136 | the octets of the screen: it is cleared, then rows with a line feed and a return between them |
| Ui.DottedReads | ui.h:104 | the address is shown by its octets, from the highest |
| Ui.RowReads | ui.h:104-119 | a row is its address, as many blanks as its indentation, and its delays |
| Ui.RowsAreMeasured | ui.h:96-121 | there is a row for every computer with a measurement, with its delays, mean and indentation, and no other |
| Ui.ListingTells | ui.h:62-64 | the three delays of a row are the means of the computer's windows by UDP, TCP and ICMP |
| Ui.GreaterFirst | ui.h:133 | the larger delay stands first; of equal delays the greater text |
| Ui.AverageIsMean | ui.h:66-76 | a row's mean is that of the delays that are not zero |
| Ui.SortSorts | ui.h:133 | the sorted rows are the same rows, in descending order of delay and text |
| Ui.SortIsAnySort | ui.h:133 | every descending arrangement of the rows of a refresh is this one |
| Ui.DividesExactly | ui.h:75-102 | the second pass divides by zero if and only if something was measured, but every sum that is not empty has wrapped to less than the number of its parts |
| Ui.DivisorPositive | ui.h:75-102 | while no sum wraps, the second pass never divides by zero |
| Ui.UniformBoundIsTight | ui.h:66-102 | averages up to 0x55555555 never divide by zero, three of one more do |
| Ui.TableDividesByZero | ui.h:100-102 | a table with one computer, measured once across a clock set back, on which it does |
| Ui.SpacesExactly | ui.h:102 | the indentation is 39 times the average over the largest if and only if the average is at most 110127366 |
| Ui.RefreshIsExact | ui.h:56-136 | with averages up to 110127366 nothing wraps, indentation is exact and at most 39, and never grows down the page |
| Ui.SamplesBoundAverages | ui.h:62-64 | samples up to 110127366 keep the averages up to it |
| Ui.ModestDelaysFit | ui.h:62-64 | so, while all recent delays are within the limit, every average that is shown is |

## Left out

- Sockets, endpoints, the io_service and object lifetimes: a send is an entry in a log, a reception is a method call, a timer is its live wait and its queue of handlers.
- The order in which queued handlers run: any order is allowed, which includes the program's.
- Random and real delays: any event may happen at any time; a delayed PTR response counts as sent when it is written, its delay being one more network delay.
- The multicast group does not loop packets back; `Discovery` allows that nevertheless, `Uniqueness` does not.
- Other software on the network: in the network modules only hosts running this program send packets; `HostModel` and `Daemon` take packets from anyone.
- Clocks: readings are given with each event, one for each entry in a sweep; the 64-bit leave times are taken not to overflow; intervals given as `double` are whole seconds.
- Undefined behaviour: what the program does once it takes the first label of an empty name, reads behind a full buffer, or never ends a name. Methods exclude exactly the packets on which that happens, where it happens.
- Telnet negotiation and the line discipline of keys, and the build with MILLI_SECONDS, in which rows are wider and delays are shown in milliseconds.
- What the sockets do with a measurement that was set off: sending the request, and connecting to the ssh port.
- The UDP echo server, the IPv4 header reader, dropping privileges, command line and hostname lookup.
