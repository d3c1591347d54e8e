# SplitHello, modelled and proved in Dafny

SplitHello is a Windows program that keeps TLS connections and DNS look-ups working on networks that
interfere with them. It re-frames the ClientHello so that no single packet or record shows the whole
host name, learns per network and host which re-framing gets through, answers DNS from an
authenticated relay, and redirects packets transparently. This project models the logic under the
Windows plumbing, one module per component, and proves what it promises.

Each component has a specification in pure functions and relations, methods in the program's own form
(loops, in-place buffers, classes with mutable tables) that are proved to compute it, and lemmas about
whole runs or all inputs that say what the specification is worth.

| module | models |
|---|---|
| `Diagnosis`, `Learning`, `LearningProgress`, `WinnerFate`, `LearningStore` | the diagnosis of one connection, the learning protocol over timed events (what the store may know and what it must come to know and let go of), the store's operations and the probe order |
| `Json`, `StoreLayout`, `StoreFile`, `StorePersistence`, `LoadMeaning`, `TornFile`, `StoreCommit`, `StoreRestart` | JSON literals and the brace scanner, the strategy file, save and load, nominations and older files, a file cut short, the numbered writes outside the lock, and a restart |
| `DnsMessage`, `DnsQuery`, `DnsAnswer`, `WireCache`, `DnsReply` | walking, ageing and cutting messages (sections 4.1, 4.1.4 and 4.2.1 of RFC 1035, section 6 of RFC 6891), queries, hand-built answers, the wire cache and the proxy's reply |
| `MessageGrammar`, `QueryGrammar`, `WireKeeping`, `ReplyMeaning` | the same, told from the bytes alone: which messages walk, which queries are accepted and what their EDNS fields are, which answers are kept and served, what the proxy's own replies say |
| `TlsHello`, `RecordSplits`, `Fragments`, `Segments`, `Relay` | hello parsing (section 3 of RFC 6066), record splitting (section 5.1 of RFC 8446), IPv4 fragments (sections 3.1 and 3.2 of RFC 791, RFC 1071), out-of-order segments, and the byte pump |
| `HelloGrammar`, `PlanMeaning` | which byte strings are a ClientHello, a ServerHello or an alert, and where each profile cuts |
| `Wildcard`, `CommandLine` | the greedy wildcard matcher and Windows argument quoting |
| `PacketPolicies`, `PolicyProgress`, `PolicyApplication`, `Quic`, `QuicProgress`, `Flows`, `FlowProgress`, `Claims`, `FlowClaims`, `Expiring` | the registries between the packet loop and the relay (what they may answer and what they must), what the loop does with a policy, and loop and claims together |
| `Recovery` | Worker health and the restart budget |
| `Basics`, `Bytes`, `Collections`, `Text` | shared notions |

Concurrency is modelled as runs of atomic steps: each critical section of the program is one step, and
a run is any sequence of steps of any number of threads. Iteration over an unordered map is modelled as
any order, and the victim of an eviction as any entry of least rank. Clocks, sockets, HTTP replies, the
outcome of a file write and the result of the system's address parser are parameters.

Where a property does not hold of the code as it is, the exact condition is proved. The wildcard walk decides
every pattern on a text if and only if the text holds no `*`. Overlapped segments reassemble if and only if
the receiver keeps the later copy or the cover bytes are the payload's own. Skipping a QUIC answer while
nothing is unanswered leaves the next Initial's decision alone if and only if the purges treat its flow alike.
A winner survives a restart unchanged if and only if the loading clock is not behind its stamps. Some outcome
of the sends repeats bytes that trail a hello if and only if there is a tunnel, something trails the hello and
some profile can be tried. What the loop reports is about the prober's last arming if and only if its policy
was taken behind that arming. Overlapped segments hide the host name if and only if the cover does not spell
the part of it in front of the cut. A positive answer is cached within its TTLs if and only if the least of
them is 0 or at least ten seconds. Every prefix of a strategy file loads as a prefix of its members if and
only if no value holds a quote in front of its last character, which no snapshot writes. The echo test folds
ASCII case on every question byte, the type included, so its guarantee is stated up to ASCII case.

The comment on the loader says that a value cut off by a torn write is not trusted; the code only looks
whether the text read for the value ends in a quote, which an escaped one does. The model follows the
code, `TornFile` gives such a text, and the promise is proved for what a snapshot writes.

## Model

| member | source | states |
|---|---|---|
| `Diagnosis.InterferenceExactlyOnDifferential` | src/Diagnosis.cpp:41-82 | interference is claimed if and only if the first success is a profile of its own, the untouched hello was tried and failed, the host was not recently healthy, and the remembered profile and the baseline did not both die of transport failures |
| `Diagnosis.BypassVerdicts` | src/Diagnosis.cpp:54-81 | for a first success of a profile other than `none`: a cache hit (65) if and only if the untouched hello was not tried or got through, a hiccup if and only if it failed and the host was recently healthy (70) or the remembered profile died as the baseline did (60), and else interference, with 70 for an alert and 92 for anything else; the winner is that profile |
| `Diagnosis.BaselineVerdicts` | src/Diagnosis.cpp:46-52 | a success of the untouched hello is throttling (55) from 1500 ms on and no interference (95) below, whatever came before it |
| `Diagnosis.NoSuccessNoClaim` | src/Diagnosis.cpp:84-98 | without a success there is no winner; an incompatibility (75) if and only if an alert came, a transport failure (45) if and only if every attempt died, and else nothing is known (25, or 0 without an attempt) |
| `Learning.ConfirmedTwice` | src/Strategy.cpp:381-419 | in every run, a winner learned from a differential at monotonic time t had a differential for the same key at some s with s+60 <= t < s+6 h, and between them no healthy baseline, forget, clear, load, `none` success or other learning for that key |
| `Learning.StrikeHasSource` | src/Strategy.cpp:387-403 | in every run, a pending nomination with a strike time has the strike event that set it, nothing cancelled it since, and it expires six hours after it |
| `Learning.WinnersAreConfirmed` | src/Strategy.cpp:329-420 | when all verdicts come from a diagnosis, every winner in every reachable state was loaded or confirmed by two differentials, was not retired since, and its verification stamp and expiry are those of the last differential |
| `Learning.WinnerHasSource` | src/Strategy.cpp:353-420 | in every run, a winner has the event that loaded or learned it and the event that last proved it, and nothing in between retired it |
| `Learning.WeakVerdictsProveNothing` | src/Strategy.cpp:349-365 | a cache hit or a transient failure creates no winner, retires none, renews no stamp and leaves nominations alone |
| `Learning.RunKeepsBounds` | src/Strategy.cpp:424-452 | in every run the store holds at most 1000 winners, 1000 nominations and 4096 healthy hosts |
| `Learning.RunKeepsProper` | src/Strategy.cpp:333-347 | in every run everything remembered is a profile of the table other than `none` |
| `Learning.ReverificationsAreSpread` | src/Strategy.cpp:586-597 | while a winner stays and is not proved again, re-verifications of it start at least 15 seconds apart |
| `Learning.ChangesAreSnapshotted` | src/Strategy.cpp:313-327 | every operation that changes a persisted field of a winner takes a snapshot in the same critical section |
| `Learning.FindLeast` | src/Strategy.cpp:431-435 | the scan for the smallest rank finds an entry none of the others is below |
| `Learning.MakeRoom` | src/Strategy.cpp:424-452 | a full table loses what is dead first, and only if it is still full one entry of least rank |
| `LearningStore.Store.constructor` | src/Strategy.cpp:221 | a new store is empty |
| `LearningStore.Store.MakeRoomForEntry` | src/Strategy.cpp:424-436 | expired winners go first, then the one verified longest ago |
| `LearningStore.Store.MakeRoomForCandidate` | src/Strategy.cpp:440-452 | dead nominations go first, then the one with the stalest strike |
| `LearningStore.Store.Replace` | src/Strategy.cpp:408-419 | the new winner replaces whatever was known about its key |
| `LearningStore.Store.NoteStrike` | src/Strategy.cpp:381-406 | a differential nominates, marks a legacy nomination, waits, or learns, as the nomination and the clocks say |
| `LearningStore.Store.RememberVerdict` | src/Strategy.cpp:329-346 | a verdict is a step of the learning protocol, and nothing at all for an empty host or an unknown profile |
| `LearningStore.Store.RememberKnown` | src/Strategy.cpp:339-351 | a `none` success retires winner and nomination; a transient failure changes nothing |
| `LearningStore.Store.RememberBypass` | src/Strategy.cpp:353-419 | a cache hit refreshes, a fresh differential re-proves, and anything else strikes or learns |
| `LearningStore.Store.NoteBaselineHealthy` | src/Strategy.cpp:454-477 | a healthy baseline cancels the nomination and vouches for the host from now on |
| `LearningStore.Store.RecordFailure` | src/Strategy.cpp:489-508 | a failure of the current winner costs confidence, a second one in a row evicts it (the counter is 32 bits wide) |
| `LearningStore.Store.Forget` | src/Strategy.cpp:510-536 | forgetting removes exactly the winners and nominations of the host, on every network |
| `LearningStore.Store.Clear` | src/Strategy.cpp:538-548 | clearing empties all three tables |
| `LearningStore.Store.ProbeOrder` | src/Strategy.cpp:569-635 | the order is headed by the live winner or the live nomination, and a due winner that nobody holds is marked |
| `LearningStore.ListOrder` | src/Strategy.cpp:615-634 | the loop over the profile table yields the listed names in table order behind the head |
| `LearningStore.ProbesEachOnce` | src/Strategy.cpp:569-635 | in every state the store can reach no profile is tried twice, every applicable one is tried, nothing else but the lead is, and the untouched hello goes first exactly when there is no live winner or it is being re-verified |
| `LearningStore.OrderHasNoRepeats` | src/Strategy.cpp:613-634 | for every table of distinct names the order has no repetition |
| `LearningStore.OrderIsComplete` | src/Strategy.cpp:628-634 | the order holds exactly the lead and the applicable profiles |
| `LearningStore.ReportsAreInferred` | src/DirectRelay.cpp:589-641 | a connection reports only verdicts of the diagnosis about its own winner, never a transient one, and a packet profile only if it was told that it was applied |
| `LearningStore.PacketProfileReachesStoreOnlyIfApplied` | src/DirectRelay.cpp:425-429 | in every run of the policy registry, a packet profile reaches the store only if the packet loop noted it as applied between the connection's last arming and the question |
| `LearningProgress.FirstStrikeIsNoted` | src/Strategy.cpp:381-393 | in every run, a differential for a key without a pending strike is only nominated, sets the strike time and changes no winner |
| `LearningProgress.PendingDecides` | src/Strategy.cpp:381-419 | in every run, with a strike of time s pending and t below s+6 h, a differential at t is learned from s+60 on, with its profile, stamp and week, and only nominated before |
| `LearningProgress.NominationLost` | src/Strategy.cpp:440-452 | a verdict on another key takes a live nomination only from a table of 1000, and only one with the oldest strike |
| `LearningProgress.SecondStrikeIsLearned` | src/Strategy.cpp:381-419 | in every run, after a first differential at s whose nomination nothing cancelled, used or crowded out, the next at t below s+6 h, whatever profile it names, is learned if and only if s+60 <= t |
| `LearningProgress.ReproofRenews` | src/Strategy.cpp:367-379 | a differential won by the live winner renews its stamp and its week, clears its failures and ends its test |
| `LearningProgress.OneFailureKeeps` | src/Strategy.cpp:489-508 | one failure of a winner without any keeps it with its proof, at twenty points less |
| `WinnerFate.WinnerGoesExactly` | src/Strategy.cpp:330-508 | in every run, an operation takes a winner away when the untouched hello got through, it failed again after a failure, its host was forgotten or all was cleared, and otherwise only when a new winner finds 1000 and this one is expired or the longest unproved; no other operation changes its profile |
| `WinnerFate.ForgottenExactly` | src/Strategy.cpp:510-535 | in every run, forgetting a host ends what is known of it on every network, and leaves everything known of another host as it was |
| `LearningProgress.SecondFailureEvicts` | src/Strategy.cpp:489-508 | in every run, two failures in a row without a success between them leave the key without its winner |
| `LearningProgress.CacheHitStartsOver` | src/Strategy.cpp:356-365 | a cache hit of the live winner clears its failures and nothing else |
| `LearningProgress.FailureAfterSuccessKeeps` | src/Strategy.cpp:489-508 | in every run, the first failure after a success leaves the winner where it is |
| `LearningProgress.RecentlyHealthyExactly` | src/Strategy.cpp:454-487 | in every run, a host counts as recently healthy if and only if its baseline last got through less than fifteen minutes ago and the entry was neither cleared nor given up |
| `LearningProgress.WinnerLeads` | src/Strategy.cpp:577-635 | a live winner leads the order, behind `none` if and only if its proof is half an hour old or five minutes ahead and no test of it began within fifteen seconds |
| `LearningProgress.TestIsMarked` | src/Strategy.cpp:586-597 | the probe marks a test exactly then, and changes nothing else |
| `LearningProgress.NominationLeads` | src/Strategy.cpp:598-621 | without a live winner, a live nomination is tried second, behind `none` |
| `LearningProgress.OthersInTableOrder` | src/Strategy.cpp:623-634 | the profiles behind the head come in the order of the table |
| `LearningProgress.BaselineReports` | src/DirectRelay.cpp:594-611 | a success of `none` reports a healthy host, and gives up the remembered profile if there is one |
| `LearningProgress.BypassReports` | src/DirectRelay.cpp:612-622 | a success of another profile reports nothing when learning is off, when a packet profile was not applied or when the failed baseline is excused; else the failure of the remembered profile if it failed, and then the profile, as a differential if and only if the baseline failed |
| `LearningProgress.KeyIgnoresDot` | src/Strategy.cpp:157-169 | a trailing dot makes no difference to the key of a host |
| `LearningProgress.KeyIgnoresCase` | src/Strategy.cpp:157-169 | nor does the case of its letters |
| `LearningProgress.KeyTellsHosts` | src/Strategy.cpp:157-169 | on one network, equal keys mean the same host up to case and trailing dots |
| `Json.Escape` | src/Json.hpp:140-162 | the loop escapes character by character |
| `Json.ParseString` | src/Json.hpp:37-72 | the reader returns the text of the literal and the position behind its closing quote |
| `Json.ReadUnit` | src/Json.hpp:45-69 | one turn reads a plain character or one escape sequence |
| `Json.ScanHex` | src/Json.hpp:56-66 | at most four hex digits are read |
| `Json.LiteralRoundTrip` | src/Json.hpp:37-72 | for every text and whatever surrounds it, reading an escaped literal gives back the text and stops at its quote |
| `Json.EscapedReads` | src/Json.hpp:140-162 | an escaped text spells the text, one unit per character |
| `Json.ScanEscaped` | src/Json.hpp:114-138 | the brace scanner passes over an escaped literal without counting what is inside |
| `Json.ScanRaw` | src/Json.hpp:114-138 | the scanner finds the bracket that closes the value, outside of strings |
| `Json.FindValue` | src/Json.hpp:25-33 | the first quoted key that is followed by a colon is found |
| `Json.GetRaw` | src/Json.hpp:114-138 | the raw value of a key is cut out with balanced brackets |
| `StoreLayout.FileRoundTrip` | src/Strategy.cpp:223-248 | for every list of members, whatever their keys and values hold, reading the written file gives back exactly that list |
| `StoreLayout.MembersRead` | src/Strategy.cpp:237-255 | the reader takes the members one by one and the brace scanner finds the brace behind them |
| `StoreFile.SplitOfJoin` | src/Strategy.cpp:102-112 | splitting at `;` gives back fields that hold none |
| `StoreFile.SplitFields` | src/Strategy.cpp:102-112 | the loop splits as the specification says |
| `StoreFile.KindRoundTrip` | src/Strategy.cpp:86-100 | parsing the name of a kind gives back the kind |
| `StoreFile.DecodeOfEncode` | src/Strategy.cpp:257-284 | decoding a written winner judges that same winner under its own key |
| `StoreFile.DecodeItem` | src/Strategy.cpp:257-293 | the fields of one value are read with the defaults, clamps and the 32- and 64-bit widths of the program |
| `StoreFile.EncodeSplits` | src/Strategy.cpp:652-656 | the six fields of a written winner, in their order |
| `StoreFile.ScanMember` | src/Strategy.cpp:242-255 | one member is read; the reader stops at it unless key, colon and value are there and the text read for the value ends in a quote behind its opening one |
| `StoreFile.NextMember` | src/Strategy.cpp:237-255 | one turn of the loader skips white space and a comma, takes a member, or stops |
| `StoreFile.LoadMembers` | src/Strategy.cpp:235-294 | the loop admits the members in order while the tables have room |
| `StoreFile.Load` | src/Strategy.cpp:223-295 | a file without the object leaves the store alone, any other replaces winners and nominations |
| `Text.FromCharsOfDecimal` | src/Strategy.cpp:76-84 | parsing a printed number gives the number, whatever the variable held before |
| `Text.DecimalRoundTrip` | src/Strategy.cpp:652-656 | a printed number reads back as the number |
| `StorePersistence.CollectWinners` | src/Strategy.cpp:650-657 | the walk over the table yields each live winner once |
| `StorePersistence.CollectLines` | src/Strategy.cpp:650-664 | a snapshot holds each live winner and each live legacy nomination without a winner, once |
| `StorePersistence.WriteItem` | src/Strategy.cpp:644-648 | one line of the file |
| `StorePersistence.WriteFile` | src/Strategy.cpp:640-665 | the text of the file is the layout of its lines |
| `StorePersistence.SaveThenLoad` | src/Strategy.cpp:223-295 | for every bounded store, every order its tables are walked in and all keys, loading what was saved restores exactly the saved winners that the loading clock believes |
| `StorePersistence.UnexpiredWinnersComeBack` | src/Strategy.cpp:637-668 | with the clock not behind the stamps, a winner is restored if and only if it is still unexpired, with every persisted field as it was |
| `StorePersistence.LoadIsAStep` | src/Strategy.cpp:223-295 | whatever the file holds, a load is a step of the learning protocol: bounded tables, known profiles, nominations without a strike |
| `StorePersistence.SnapshotIsSavable` | src/Strategy.cpp:637-668 | a snapshot of a state whose stamps a clock can have written, and whose TTL still fits 64 bits, has keys and numbers the file carries |
| `StorePersistence.ReachableWinnersComeBack` | src/Strategy.cpp:223-295 | in every run whose clock never read more than at the load, loading a snapshot of any state of the run restores a winner if and only if it is still unexpired, with every persisted field as it was |
| `StorePersistence.ComesBackUnchangedExactly` | src/Strategy.cpp:274-293 | one winner comes back as it was if and only if it was unexpired when saved, is unexpired and at most one TTL ahead when loaded, its stamp is not 0 and at most 300 s ahead, and its confidence is at most 100 |
| `StorePersistence.SteppedBackClockLosesWinner` | src/Strategy.cpp:276-292 | a run whose winner is unexpired but not restored, because the loading clock is 301 s behind its stamp |
| `LoadMeaning.OldLineIsNominated` | src/Strategy.cpp:257-293 | a bare host with a bare profile is nominated under the default network for a week |
| `LoadMeaning.EmptyLineIsSkipped` | src/Strategy.cpp:253-259 | a line without a key, with an unknown profile or with `none` says nothing |
| `LoadMeaning.UnverifiedIsNominated` | src/Strategy.cpp:277-293 | a winner without a stamp, or with one more than 300 s ahead, is nominated until it expires, within a week |
| `LoadMeaning.NominationsComeBack` | src/Strategy.cpp:658-664 | with the clock in order, a restart brings back exactly the nominations from an older file that are still good, each as it was |
| `LoadMeaning.ReachableNominationsComeBack` | src/Strategy.cpp:658-664 | so it is for a snapshot of every state of every run with an orderly clock |
| `TornFile.UnclosedTrustedExactly` | src/Strategy.cpp:249-251 | a value that is never closed is trusted if and only if the text ends in an escaped quote at least two characters behind its opening one |
| `TornFile.UnclosedValueIsTaken` | src/Strategy.cpp:249-251 | such a text: the value is never closed, and the member is taken |
| `TornFile.SafeToTearExactly` | src/Strategy.cpp:228-255 | over all member lists: every prefix of the file loads as no object or as a prefix of the list, if and only if no value holds a quote in front of its last character |
| `TornFile.QuoteMisleads` | src/Strategy.cpp:249-251 | for every list with such a quote: the cut of its file behind that quote loads the members before it and a value that was never written |
| `TornFile.TornSnapshotLoads` | src/Strategy.cpp:228-296 | wherever the write of a snapshot was torn, a load leaves the store alone or takes in exactly its first lines, for some number of them |
| `TornFile.TornWriteInventsNothing` | src/Strategy.cpp:228-296 | in every run with an orderly clock, loading a torn snapshot neither invents nor alters a winner |
| `StoreFile.EncodeUnquoted` | src/Strategy.cpp:652-656 | the value written for a winner of a known profile holds no quote |
| `Learning.RunKeepsDated` | src/Strategy.cpp:408-419 | in every run whose clock reads at most some time, every key has a network part, every confidence is a percentage, every stamp is set and at most 300 s past that time, and no expiry is more than one TTL past it |
| `StoreRestart.QuietRestartRestoresWinners` | src/Strategy.cpp:637-685 | under every interleaving, once no write is outstanding and the newest did not fail, loading the file restores exactly the unexpired winners of the store as it then is |
| `StoreCommit.StrategyFile.constructor` | src/Strategy.cpp:221 | nothing is numbered or written yet |
| `StoreCommit.StrategyFile.TakeSnapshot` | src/Strategy.cpp:667 | each snapshot gets the next number |
| `StoreCommit.StrategyFile.Commit` | src/Strategy.cpp:670-685 | an overtaken snapshot is dropped; a successful write advances the number and replaces the content; a failed one changes neither |
| `StoreCommit.FileWasAState` | src/Strategy.cpp:670-685 | under every interleaving, including failed writes, the file holds what it held at first or a state the store was in |
| `StoreCommit.WrittenNeverGoesBack` | src/Strategy.cpp:673-679 | under every interleaving the number last written never decreases |
| `StoreCommit.QuietFileIsCurrent` | src/Strategy.cpp:637-685 | once no write is outstanding and the newest did not fail, the file holds the newest snapshot and the store's present winners |
| `StoreCommit.AlwaysConsistent` | src/Strategy.cpp:637-685 | every snapshot number is outstanding, failed or not above the one last written, and the newest snapshot has the store's present winners |
| `DnsMessage.ScanName` | src/DnsMessage.cpp:87-101 | the loop over a possibly compressed name |
| `DnsMessage.ScanQuestions` | src/DnsMessage.cpp:121-125 | the loop over the questions |
| `DnsMessage.ScanRecords` | src/DnsMessage.cpp:128-142 | the loops over the records of the three sections |
| `DnsMessage.WalkMessage` | src/DnsMessage.cpp:110-144 | the bounds-checked walk over the whole message |
| `MessageGrammar.NameExactly` | src/DnsMessage.cpp:87-101 | a name ends at a place if and only if labels of 1 to 63 bytes lead to a zero byte or a pointer in front of it |
| `MessageGrammar.LaidIsWalked` | src/DnsMessage.cpp:110-144 | a message whose counts can fit and whose questions and records stand one behind the other is walkable, and the walk lists the type and the place of the TTL of each record |
| `MessageGrammar.WalkedIsLaid` | src/DnsMessage.cpp:110-144 | and only such a message is walkable |
| `DnsMessage.AgeRecord` | src/DnsMessage.cpp:327-332 | one TTL is aged in place unless the record is OPT |
| `DnsMessage.AgeRecords` | src/DnsMessage.cpp:327-332 | all TTLs are aged in place |
| `DnsMessage.AgeTtls` | src/DnsMessage.cpp:322-333 | the message is aged in place; a malformed one is left alone |
| `DnsMessage.AgeingKeepsWalk` | src/DnsMessage.cpp:322-333 | ageing leaves the walk of every message identical |
| `DnsMessage.AgeingChangesOnlyTtls` | src/DnsMessage.cpp:322-333 | ageing changes only the TTL bytes of records other than OPT, and each TTL as the rule says |
| `DnsMessage.AgeingIsAdditive` | src/DnsMessage.cpp:331 | ageing by a and then b is ageing by a+b |
| `DnsMessage.TruncateForUdp` | src/DnsMessage.cpp:335-349 | a message over the limit is cut |
| `DnsMessage.TruncationIsWalkable` | src/DnsMessage.cpp:335-349 | a cut message walks, holds no record, has TC set and keeps identifier, QR and response code |
| `DnsQuery.ScanLabel` | src/DnsMessage.cpp:184-188 | one label, lower-cased and checked |
| `DnsQuery.ScanLabels` | src/DnsMessage.cpp:170-190 | the loop over the labels of the question's name |
| `DnsQuery.ParseEdns` | src/DnsMessage.cpp:66-84 | the OPT record is found behind root-named records only |
| `DnsQuery.ParseQuery` | src/DnsMessage.cpp:152-206 | a query is accepted or refused with the code of the program |
| `QueryGrammar.AcceptedExactly` | src/DnsMessage.cpp:152-206 | a datagram is accepted if and only if it is a standard query with one IN question whose name is a chain of labels of letters, digits, hyphens and underscores with at most 253 characters |
| `QueryGrammar.AcceptedFields` | src/DnsMessage.cpp:152-206 | its identifier, recursion bit, type and question are those bytes, and its name is the labels in lower case with a dot for each inner length |
| `QueryGrammar.RefusedExactly` | src/DnsMessage.cpp:152-206 | a refused query is not implemented if its operation or its class is another, and malformed else; a response or a short datagram has no code |
| `QueryGrammar.EdnsIsOpt` | src/DnsMessage.cpp:66-84 | payload size and DO bit of an accepted query are the class and the top flag of the OPT record that complete root-named records of other types lead to |
| `QueryGrammar.NoOptNoEdns` | src/DnsMessage.cpp:66-84 | without such a record, or with answer or authority counts, both are zero |
| `DnsQuery.AcceptedQuery` | src/DnsMessage.cpp:152-206 | what every accepted query looks like: header fields, name, type, class and question bytes |
| `DnsQuery.AcceptedQuestion` | src/DnsMessage.cpp:183-203 | an accepted question has six bytes more than its name, at most 259, and the walk skips its name as a whole |
| `DnsQuery.RenderInjective` | src/DnsMessage.cpp:178-190 | the dotted text of a name determines its labels |
| `DnsQuery.NameAndTypeDetermineQuestion` | src/DnsMessage.cpp:152-206 | accepted queries with one name and one type have question bytes equal up to ASCII case |
| `DnsQuery.CheckEcho` | src/DnsMessage.cpp:305-316 | the comparison folds ASCII case on every question byte |
| `DnsQuery.EchoPinsQuestionEnd` | src/DnsMessage.cpp:305-316 | a walkable message that repeats an accepted question ends its question section exactly behind it |
| `DnsAnswer.CollectUsable` | src/DnsMessage.cpp:223-231 | the first eight addresses that parse are taken |
| `DnsAnswer.AppendRecords` | src/DnsMessage.cpp:247-255 | one record per address, pointing at the question |
| `DnsAnswer.BuildResponse` | src/DnsMessage.cpp:208-265 | the bytes of a hand-built answer |
| `DnsAnswer.BuiltAnswerIsSound` | src/DnsMessage.cpp:208-265 | every hand-built answer walks, has QR set, the query's identifier and question, at most 506 bytes, and the walk finds exactly the first eight usable addresses with the given TTL, and OPT if the query had it |
| `DnsAnswer.ErrorReplyIsSound` | src/DnsMessage.cpp:267-277 | an error reply walks and has QR set, the identifier, the opcode and the code |
| `WireCache.KeyDetermines` | src/Dns.cpp:82-90 | the cache key determines name, type and the three flags |
| `WireCache.SameKeySameQuestion` | src/Dns.cpp:82-90 | accepted queries with one key have questions equal up to ASCII case |
| `WireCache.InspectResponse` | src/DnsMessage.cpp:279-303 | the least TTL of answers and of authorities, leaving OPT out |
| `WireCache.LifetimeWithinTtlsExactly` | src/Dns.cpp:93-106 | a positive answer is kept no longer than any of its records allows if and only if none of them has a TTL or their least TTL is 0 or at least ten seconds |
| `WireCache.NegativeLifetimeExactly` | src/Dns.cpp:93-106 | a negative answer outlives no authority record if and only if there is none or their least TTL is at least ten seconds |
| `WireCache.ShortTtlIsOutlived` | src/Dns.cpp:93-106 | every address query has an accepted answer with a TTL from 1 to 9 that is kept for ten seconds |
| `WireCache.ThreeSecondsKeptTen` | src/Dns.cpp:93-106 | one such: a TTL of three seconds is kept for ten |
| `WireKeeping.KeptExactly` | src/Dns.cpp:93-106 | the life time of an answer is n > 0 seconds if and only if TC is clear and it is a positive answer with a positive least TTL, n being that TTL within 10 and 3600, or a negative one, n being the least authority TTL within 10 and 60, or 30 without one |
| `WireKeeping.CacheableExactly` | src/Dns.cpp:93-106 | and it is zero if and only if TC is set, or a positive answer has no positive least TTL, or the code is neither 0 nor 3 |
| `WireKeeping.RelayKeepsExactly` | src/Dns.cpp:530-580 | an accepted answer that may be kept is stored under the key of its query, until exactly that many seconds later |
| `WireKeeping.RelayKeepsNoOther` | src/Dns.cpp:530-580 | any other accepted answer leaves the cache as it was |
| `WireKeeping.HitIsNoFailure` | src/Dns.cpp:512-528 | in every run, no hit has the TC bit or a response code other than 0 or 3 |
| `WireKeeping.HitIsInTime` | src/Dns.cpp:512-528 | in every run, a hit is an answer that may be kept, within the seconds its bytes allow |
| `WireKeeping.HitExactly` | src/Dns.cpp:512-579 | in every timely run, the cache answers a key if and only if the last answer stored under it is before its deadline, was not cleared, and was not given up by a full cache as one with the earliest deadline |
| `WireCache.SetIdKeepsWalk` | src/DnsMessage.cpp:318-320 | setting the identifier leaves the walk identical |
| `WireCache.CheckAnswer` | src/Dns.cpp:545-563 | the Worker's answer is accepted exactly when it walks, is a response of allowed size and repeats the question |
| `WireCache.ServedIsReply` | src/Dns.cpp:514-528 | an answer accepted for one query is a proper reply to every query with the same key, at every age |
| `WireCache.WireResolver.LookUp` | src/Dns.cpp:512-528 | a live entry is served, a dead one dropped |
| `WireCache.WireResolver.Store` | src/Dns.cpp:566-579 | the entry is written; a full cache gives up one with the earliest deadline |
| `WireCache.WireResolver.Relay` | src/Dns.cpp:530-580 | a checked answer gets the query's identifier and is kept exactly when it may be |
| `WireCache.WireResolver.QueryWire` | src/Dns.cpp:488-581 | a live entry is served without asking, anything else is relayed, and whatever comes back is a proper reply |
| `WireCache.WireResolver.ClearCache` | src/Dns.cpp:586-593 | clearing empties the wire cache |
| `WireCache.HitRefinesAskingAgain` | src/Dns.cpp:510-581 | in every run of look-ups, stores and clearings, a hit is an answer accepted earlier under the same key and not cleared since: walkable, repeating the asker's question, with the asker's identifier, and differing from it only there and in TTLs older by exactly the seconds it was kept |
| `WireCache.EntryHasSource` | src/Dns.cpp:566-579 | in every run an entry is the one written by the last store under its key, with no clearing since |
| `DnsReply.CutReplyIsReply` | src/TransparentDnsProxy.cpp:265-266 | a reply cut to the client's payload still walks, repeats the question and fits |
| `DnsReply.BuiltAnswerIsNeverCut` | src/TransparentDnsProxy.cpp:245-266 | a hand-built answer is never cut |
| `DnsReply.RefusedQuery` | src/TransparentDnsProxy.cpp:226-233 | a refused datagram has an error code exactly when its header is readable and it is not a response |
| `DnsReply.ReportFailure` | src/TransparentDnsProxy.cpp:261-263 | no answer becomes a server failure |
| `DnsReply.AnswerBootstrap` | src/Dns.cpp:494-508 | the Worker's own name is answered from the bootstrap addresses |
| `DnsReply.CutToFit` | src/TransparentDnsProxy.cpp:265-266 | an answer that fits is left alone, and a longer one is cut |
| `DnsReply.ProperReplyFits` | src/TransparentDnsProxy.cpp:224-270 | a proper reply has at most 512 bytes, or as many as the class field of the query's OPT record says |
| `DnsReply.DnsProxy.RelayWire` | src/Dns.cpp:488-508 | no Worker, the Worker's own name and every other name are told apart |
| `DnsReply.DnsProxy.FindAnswer` | src/TransparentDnsProxy.cpp:235-260 | an address query the resolver could judge gets exactly its addresses or its response code and leaves the cache alone; any other gets the raw answer |
| `DnsReply.DnsProxy.AnswerQuery` | src/TransparentDnsProxy.cpp:235-270 | an accepted query always gets a proper reply that fits: the answer found, cut if need be, or a server failure for none |
| `DnsReply.DnsProxy.BuildReply` | src/TransparentDnsProxy.cpp:224-270 | there is no reply exactly for unreadable datagrams and responses; every reply walks, has QR set, the request's identifier and at most max(512, EDNS) bytes, and repeats an accepted question |
| `ReplyMeaning.AddressReplyMeans` | src/TransparentDnsProxy.cpp:235-256 | the reply to a judged address query carries exactly the first eight addresses of its family that parse, in order, with the resolver's TTL or 60, and says no error if either family has any and the Worker's code else |
| `ReplyMeaning.FailedFamilyMeans` | src/TransparentDnsProxy.cpp:244-263 | a family whose own look-up failed gets a server failure |
| `ReplyMeaning.FailureMeans` | src/TransparentDnsProxy.cpp:261-263 | a server failure has code 2 and no records but OPT |
| `ReplyMeaning.BootstrapReplyMeans` | src/Dns.cpp:494-508 | the Worker's own name gets its first eight known addresses, or a server failure if there are none at all |
| `TlsHello.ReadServerName` | src/TlsHello.cpp:43-68 | the first host name of the extension is recorded with its place |
| `TlsHello.ParseExtensions` | src/TlsHello.cpp:70-98 | the loop over the extensions |
| `TlsHello.ParseClientHello` | src/TlsHello.cpp:100-151 | the parse of one hello |
| `TlsHello.ClassifyServerResponse` | src/TlsHello.cpp:153-187 | the loop over the records of the answer |
| `TlsHello.DecisionIsFinal` | src/TlsHello.cpp:100-151 | once the parser has decided, no further bytes change the result |
| `TlsHello.ChunkingIsIrrelevant` | src/DirectRelay.cpp:279-339 | all decisions on prefixes of one stream agree |
| `TlsHello.UndecidedIsShort` | src/DirectRelay.cpp:279-339 | an undecided hello has fewer than 16389 bytes |
| `TlsHello.ClassificationIsFinal` | src/TlsHello.cpp:153-187 | a classification never changes with more bytes |
| `HelloGrammar.ClassifiedExactly` | src/TlsHello.cpp:153-187 | a first flight is a ServerHello, an alert or unexpected if and only if complete change_cipher_spec records lead to a record that says so, and undecided if and only if they lead to an incomplete one |
| `HelloGrammar.NeedsMoreExactly` | src/TlsHello.cpp:100-120 | more is needed if and only if the bytes may become a handshake record that is not complete |
| `HelloGrammar.NotTlsExactly` | src/TlsHello.cpp:103-123 | it is not TLS if and only if the record is no handshake or its message no ClientHello |
| `HelloGrammar.SpansExactly` | src/TlsHello.cpp:125-139 | it spans records if and only if its message is longer than the record |
| `HelloGrammar.ReadExactly` | src/TlsHello.cpp:141-151 | a whole ClientHello is read if and only if its vectors, and a chain of extensions behind them if there is one, fill it; else it is malformed |
| `HelloGrammar.SaysExactly` | src/TlsHello.cpp:44-98 | ECH is found if and only if an extension of the chain announces it, and the host name is that of the first server_name extension whose list leads to one that is not empty |
| `HelloGrammar.NoExtensionsNoName` | src/TlsHello.cpp:147-149 | a hello without extensions says nothing |
| `TlsHello.ParsedHelloDescribesRecord` | src/TlsHello.cpp:100-151 | a parsed hello describes a complete record that is present and a host name that stands where it says |
| `TlsHello.CoverHelloParsesBack` | src/PacketStrategy.cpp:79-116 | for every name of 1 to 253 bytes the cover hello parses back to that name |
| `RecordSplits.Sanitize` | src/Strategy.cpp:136-144 | cuts outside the payload go, the rest is ascending without repetition |
| `RecordSplits.SanitizedIsExact` | src/Strategy.cpp:136-144 | exactly the cuts inside the payload remain |
| `RecordSplits.WritePayload` | src/DirectRelay.cpp:343-379 | writing in chunks writes the payload |
| `RecordSplits.WriteRecord` | src/DirectRelay.cpp:343-379 | one record with its own length |
| `RecordSplits.WriteFragmented` | src/DirectRelay.cpp:343-379 | the records of the plan, one after the other |
| `RecordSplits.FramedDecodes` | src/DirectRelay.cpp:343-379 | a record reader gets back exactly the stretches that were framed |
| `RecordSplits.SplitHelloReassembles` | src/Strategy.cpp:171-217 | for every parsed hello and every splitting plan, the bytes written are non-empty records of the original type and version whose payloads concatenate to the original payload |
| `RecordSplits.AimedPlanCutsName` | src/Strategy.cpp:171-217 | the profiles aimed at the name cut inside it |
| `RecordSplits.HostnameIsNeverWhole` | src/Strategy.cpp:171-217 | under these profiles no record holds the whole host name of two or more bytes |
| `PlanMeaning.PlanCutsExactly` | src/Strategy.cpp:171-217 | for every hello with a name, a record ends inside it if and only if the profile wants it there: in the middle of the name, in front of it, behind the first byte, or at all of these and behind the name |
| `PlanMeaning.NamelessPlan` | src/Strategy.cpp:171-217 | without a name the aimed profiles do not apply, and `record-1` splits off the first byte |
| `PlanMeaning.PaceExactly` | src/Strategy.cpp:207-211 | only `sni-mid-slow` writes four bytes at a time, with twice the pause or 40 ms |
| `Fragments.InternetChecksum` | src/PacketStrategy.cpp:224-229 | the folded one's complement sum |
| `Fragments.ComplementCompletes` | src/PacketStrategy.cpp:224-231 | adding the complement of a folded sum makes it all ones |
| `Fragments.FinishHeader` | src/PacketStrategy.cpp:214-232 | length, flags, offset and checksum are written in place |
| `Fragments.FinishedChecksumVerifies` | src/PacketStrategy.cpp:187-237 | the header checksum verifies in one's complement |
| `Fragments.BuildIpv4Fragments` | src/PacketStrategy.cpp:187-237 | the two fragments, or none |
| `Fragments.FragmentsReassemble` | src/PacketStrategy.cpp:187-237 | the fragments reassemble to the payload, the offset fits 13 bits, only the right flag is set and the rest of the header is kept |
| `Fragments.Ipv4FragmentBoundary` | src/PacketStrategy.cpp:157-185 | 0 exactly when no multiple of eight lies strictly inside, and otherwise the closest one |
| `Fragments.FragmentAtName` | src/WinDivertInterceptor.cpp:563-585 | the packet is cut unless no multiple of eight lies inside; the fragments carry exactly what is in front of and behind the cut and reassemble to the whole; and neither carries all octets of a known host name |
| `Fragments.FindNeighbour` | src/PacketStrategy.cpp:169-185 | of the two neighbouring multiples of eight the closer one in range |
| `Segments.BuildSegments` | src/PacketStrategy.cpp:128-155 | the segments of the two modes, in the order they are sent |
| `Segments.ReversedReassembles` | src/PacketStrategy.cpp:133-138 | reversed segments reassemble to the payload for every receiver |
| `Segments.CutHostnameIsNeverWhole` | src/PacketStrategy.cpp:118-138 | when the cut counts as splitting the name, neither reversed segment carries all of it |
| `Segments.OverlappedHostnameIsNeverWhole` | src/PacketStrategy.cpp:118-153 | nor does an overlapped one: the second ends before the name does, and in the first the name's bytes in front of the cut are the cover's |
| `Segments.OverlappedReassemblesExactly` | src/PacketStrategy.cpp:140-153 | overlapped segments reassemble if and only if the receiver keeps the later copy or the cover bytes are the payload's own |
| `Segments.EarlierCopyCounterexample` | src/PacketStrategy.cpp:140-153 | a hello that parses, cut by the policy that `packet-seqovl` makes for it and covered by the program's own cover, reaches a receiver that keeps the earlier copy as another stream |
| `PolicyApplication.ApplyPolicy` | src/WinDivertInterceptor.cpp:553-655 | what is sent for a policy and when it counts as applied: fragments if and only if the packet may be cut and a boundary fits, segments if the library built them and the cut is inside the name, a decoy if it was built |
| `PolicyApplication.SendFragments` | src/WinDivertInterceptor.cpp:563-585 | two fragments if and only if some boundary lies inside the name and the packet may be fragmented |
| `PolicyApplication.SendingDelivers` | src/WinDivertInterceptor.cpp:563-607 | whatever is sent, a receiver that keeps the later copy gets the payload; without an overlap every receiver does |
| `PolicyApplication.AppliedMeansCutExactly` | src/WinDivertInterceptor.cpp:563-613 | when a profile that cuts counts as applied, no packet sent holds the host name at its place, if and only if the overlap does not spell the part of it in front of the cut; without an overlap, always |
| `PolicyApplication.OwnCoverHides` | src/PacketStrategy.cpp:79-116 | the program's own cover spells no name without a zero byte |
| `PolicyApplication.ZeroByteIsSpelled` | src/PacketStrategy.cpp:140-153 | a hello whose name has a zero byte, sent in segments by the policy made for it, one of which holds the whole name |
| `PolicyApplication.SegmentsApplyExactly` | src/PacketStrategy.cpp:46-77 | for the policy of a profile and a hello in one packet, segments count as applied if and only if the name is not a single byte |
| `PolicyApplication.BoundaryFitsExactly` | src/PacketStrategy.cpp:157-186 | for such a policy, the fragment boundaries that fit are exactly the multiples of eight inside the name |
| `PolicyApplication.LongNameIsAlwaysCut` | src/PacketStrategy.cpp:157-186 | every name of nine bytes or more has one |
| `PolicyApplication.PacketProfilesExactly` | src/PacketStrategy.cpp:46-77 | exactly the six packet profiles have a policy |
| `PolicyApplication.CuttingProfilesOnWire` | src/PacketStrategy.cpp:46-155 | what `packet-reverse`, `packet-seqovl` and `packet-ipfrag` put on the wire: the two segments, with an overlap of eight bytes of the cover, or fragments |
| `PolicyApplication.DecoyProfilesOnWire` | src/WinDivertInterceptor.cpp:615-650 | what `packet-fake-badseq`, `packet-fake-badsum` and `packet-autottl` put in front of the packet: the cover hello ten thousand out of sequence, with a wrong checksum, or with the short life |
| `PolicyApplication.UnresolvedAutoTtlOnWire` | src/PacketStrategy.cpp:345-353 | AutoTTL without a usable sample is sent as the bad-sequence decoy |
| `PolicyApplication.ReportIsAboutExactly` | src/PacketStrategy.cpp:361-371 | in every run, a report behind the last arming of its connection is about that arming if and only if its policy was taken behind it, and about an earlier one otherwise |
| `PolicyApplication.PromptReportIsFresh` | src/WinDivertInterceptor.cpp:553-655 | a report that no arming of its connection separates from its take is about the last arming |
| `PolicyApplication.LateReportMisleads` | src/PacketStrategy.cpp:361-371 | for every connection and every two such policies, a run in which the take comes in front of the second arming and the report behind it: the prober is told that the second was applied, and nothing was cut |
| `PolicyApplication.ToldAppliedMeansCut` | src/WinDivertInterceptor.cpp:553-655 | in every run, when the prober is told that its policy was applied, a packet was reported since the last arming; if the policy of any such report was taken behind that arming, a packet went out with the armed policy, and a policy that cuts had its host name cut unless the cover spells it |
| `PolicyApplication.ReportedProfileCutName` | src/DirectRelay.cpp:425-429 | in every run, a connection that reports a profile that cuts had a packet reported since its last arming; if the policy of any such report was taken behind that arming, a packet that held the name of the connection's hello, if it was long enough, went out with that name cut, unless the name has a zero byte |
| `Relay.SendSome` | src/DirectRelay.cpp:124-147 | what is sent is a prefix of the data |
| `Relay.Direction.constructor` | src/DirectRelay.cpp:745-748 | nothing is taken, pending or delivered |
| `Relay.Direction.Flush` | src/DirectRelay.cpp:794-810 | pending bytes go out in order; nothing is lost or repeated |
| `Relay.Direction.Receive` | src/DirectRelay.cpp:812-839 | received bytes are delivered or kept pending; the end of the stream is noted |
| `Relay.Direction.Service` | src/DirectRelay.cpp:791-840 | one direction's turn keeps delivered plus pending equal to received, and forwards FIN only behind the last byte |
| `Relay.Turn` | src/DirectRelay.cpp:742-842 | one turn of both directions |
| `Relay.Pump` | src/DirectRelay.cpp:742-842 | in every run each destination has received a prefix of what its source sent, and FIN only behind all of it |
| `Relay.Probe` | src/DirectRelay.cpp:481-647 | the profiles are tried in order, each on a connection of its own, until one gets a ServerHello, for every fate of every attempt |
| `Relay.ProbeSendsHelloOnly` | src/DirectRelay.cpp:481-647 | whatever the world does, each connection of the probe sees only a prefix of a framing of the hello, the winner all of one, and there are at most twelve |
| `Relay.ProbeTriesInTurn` | src/DirectRelay.cpp:517-647 | exactly the profiles of the order that can be tried are tried in turn up to where the probe ends; only the last may have got through, and it did if and only if the probe won; without a winner the list, the twelve attempts, the stop flag or a failed reconnect ended it |
| `Relay.FlushTrailing` | src/DirectRelay.cpp:431-440 | what the flush puts on the wire goes behind the log of the last connection only |
| `Relay.TrailingGoesToWinnerOnly` | src/DirectRelay.cpp:431-440 | across all attempts, a trailing byte is on a connection if and only if that is the winner and the flush got as far as the byte |
| `Relay.SentTwiceExactly` | src/DirectRelay.cpp:660-738 | byte by byte: a trailing byte reaches a server and the tunnel if and only if a profile won, the flush failed behind the byte, there is a tunnel and it took the buffer past the byte |
| `Relay.MayRepeatExactly` | src/DirectRelay.cpp:660-738 | before the call: some outcome of the sends repeats a trailing byte if and only if there is a tunnel, something trails the hello and some profile of the order can be tried |
| `Relay.RepeatedByteExample` | src/DirectRelay.cpp:660-738 | a hello with one byte behind it, tried untouched, and the outcome in which that byte goes out twice |
| `Relay.RunConnection` | src/DirectRelay.cpp:660-738 | the logs of all connections and of the tunnel, as bytes, for every outcome of every send |
| `Relay.ServeClient` | src/DirectRelay.cpp:719-731 | the client receives the answer the probe read and then what the pump delivers: always a prefix of what the server sent, with FIN behind all of it |
| `Relay.DeliverUntouched` | src/DirectRelay.cpp:481-496 | what is not a single parsed hello goes out untouched, once, as far as the send gets |
| `Relay.RunUntouched` | src/DirectRelay.cpp:481-496 | such a buffer with the tunnel behind a failed send: what server and tunnel were given, as bytes, for every outcome |
| `Relay.MayForwardTwiceExactly` | src/DirectRelay.cpp:660-738 | before the call: some outcome sends a byte of such a buffer to the server and to the tunnel if and only if there is a tunnel and the buffer is not empty |
| `Relay.EveryProfileCarriesTheHello` | src/DirectRelay.cpp:381-391 | under every profile the records written carry the original hello |
| `Relay.SentRecords` | src/DirectRelay.cpp:343-391 | under a profile with cuts, the records that go out are the stretches of the hello between the cuts |
| `Relay.SentNameIsCut` | src/DirectRelay.cpp:343-391 | under a profile aimed inside the name, no record that goes out holds the whole name |
| `Wildcard.WildcardMatch` | src/ProcessFilter.cpp:72-100 | the loop over four indices computes the greedy walk |
| `Wildcard.WalkSound` | src/ProcessFilter.cpp:72-100 | whatever the walk accepts the pattern means |
| `Wildcard.WalkComplete` | src/ProcessFilter.cpp:72-100 | on a text without `*` the walk decides exactly what the pattern means |
| `Wildcard.CorrectExactlyOnStarFreeTexts` | src/ProcessFilter.cpp:79-87 | the walk is right about every pattern on a text if and only if the text holds no `*` |
| `Wildcard.StarTextCounterexample` | src/ProcessFilter.cpp:79-87 | a text with a star on which the walk is wrong |
| `CommandLine.QuoteArgument` | src/CommandLine.hpp:10-37 | the loop doubles backslashes before quotes and at the end |
| `CommandLine.SplitOfJoin` | src/CommandLine.hpp:10-37 | for every list of arguments, splitting the joined quoted forms by the Windows rules gives back the list |
| `Quic.AdaptiveRegistry.constructor` | src/QuicStrategy.cpp:49-52 | an empty registry with right counters |
| `Quic.AdaptiveRegistry.PurgeFlows` | src/QuicStrategy.cpp:59-79 | idle flows go and the counter follows |
| `Quic.AdaptiveRegistry.PurgeBlocks` | src/QuicStrategy.cpp:59-79 | ended blocks go |
| `Quic.AdaptiveRegistry.PurgeIfDue` | src/QuicStrategy.cpp:59-79 | the purge keeps both counters right |
| `Quic.AdaptiveRegistry.Outbound` | src/QuicStrategy.cpp:81-116 | the decision and the new state of an outgoing datagram |
| `Quic.AdaptiveRegistry.OutboundInitial` | src/QuicStrategy.cpp:96-116 | an Initial primes, passes or blocks |
| `Quic.AdaptiveRegistry.Inbound` | src/QuicStrategy.cpp:118-129 | an answer marks the flow and lifts the block |
| `Quic.AdaptiveRegistry.Clear` | src/QuicStrategy.cpp:131-138 | everything is forgotten |
| `Quic.AdaptiveRegistry.NeedsOutbound` | src/QuicStrategy.hpp:44-46 | false only if every such datagram would pass |
| `Quic.AdaptiveRegistry.NeedsInbound` | src/QuicStrategy.hpp:47-49 | false exactly if no flow waits for an answer |
| `Quic.ReachableIsSound` | src/QuicStrategy.cpp:59-138 | with non-decreasing time, in every reachable state every blocked server has an unanswered flow last touched exactly the fallback time before the block ends |
| `Quic.NothingUnansweredNothingBlocked` | src/QuicStrategy.hpp:44-62 | in every reachable state nothing unanswered implies nothing blocked |
| `Quic.DropIsJustified` | src/QuicStrategy.cpp:81-116 | a datagram is dropped only while an Initial to its server has gone unanswered for the response timeout |
| `QuicProgress.BlockedExactly` | src/QuicStrategy.cpp:81-116 | in every timely run, a server is blocked if and only if an Initial to it was blocked less than the fallback time ago, with no reset and no answer to a known flow of it since |
| `QuicProgress.DroppedExactly` | src/QuicStrategy.cpp:81-95 | in every timely run, a datagram that is no Initial is dropped if and only if its server is blocked so, and passes else |
| `QuicProgress.FirstInitialStarts` | src/QuicStrategy.cpp:96-104 | in every run, the first Initial of a flow to a server that is not blocked is let through and primes it |
| `QuicProgress.LaterInitialExactly` | src/QuicStrategy.cpp:104-116 | in every timely run, within the fallback time of a flow's start, an Initial of it to a server that is not blocked is dropped and blocks the server if and only if the response timeout has passed since the start and no answer came; else it passes |
| `Quic.UnblockedPasses` | src/QuicStrategy.hpp:44-46 | with nothing blocked a datagram that is no Initial passes and would only have started a purge |
| `Quic.IdleInboundOnlyTouches` | src/QuicStrategy.hpp:47-49 | in every reachable state with nothing unanswered, handling an answer changes no block and no flow but its touch time, after the purge it starts |
| `Quic.SkippingIsFreeExactlyWhenPurgesAgree` | src/WinDivertInterceptor.cpp:738-742 | from every such state the next Initial is decided alike with the answer handled or skipped if and only if its flow survives the purges in both cases or in neither, written out with touch time, purge time and fallback time |
| `Quic.RecentlyTouchedIsDecidedAlike` | src/WinDivertInterceptor.cpp:738-742 | a flow touched at most the fallback time before the Initial is decided alike |
| `Quic.WithinFallbackNoDecisionChanges` | src/WinDivertInterceptor.cpp:738-742 | whatever happens next, while every event comes less than the fallback time after the oldest touch, skipping the answer changes no decision at all |
| `Quic.SkippingCanBlockAnAnsweredServer` | src/WinDivertInterceptor.cpp:738-742 | a run in which the skipped answer makes the next Initial primed instead of passed and its retransmission dropped |
| `Flows.TcpFlowTable.Add` | src/TransparentFlow.cpp:222-236 | a fresh entry; others are lost only to make room, those closest to their deadline first |
| `Flows.TcpFlowTable.Track` | src/TransparentFlow.cpp:238-256 | whether the tuple was live, and its refreshed, closing or erased entry |
| `Flows.TcpFlowTable.Remove` | src/TransparentFlow.cpp:258-261 | exactly that tuple goes |
| `Flows.TcpFlowTable.MakeRoom` | src/TransparentFlow.cpp:277-298 | nothing that is lost had a later deadline than what is kept |
| `Flows.RunKeepsCapacity` | src/TransparentFlow.cpp:222-298 | in every run the table holds at most 65536 tuples |
| `Flows.PacketLoop.Process` | src/WinDivertInterceptor.cpp:438-544 | the packet is rewritten exactly when the step owns it; an owned client SYN announces its flow and an owned SYN-ACK gives a hop sample |
| `FlowProgress.RoutesExactly` | src/TransparentFlow.cpp:304-316 | which packets take which route, by direction and ports |
| `FlowProgress.SynExactly` | src/WinDivertInterceptor.cpp:444-500 | in every run, a client SYN is rewritten if and only if the rules allow it, and what the relay sends out always is |
| `FlowProgress.RewrittenExactly` | src/TransparentFlow.cpp:222-256 | in every run, another packet of an admitted tuple that was alive after its last packet and not crowded out since is rewritten if and only if it comes less than four hours after that packet, or two minutes once a FIN was seen |
| `FlowProgress.StrangerIsLeftAlone` | src/TransparentFlow.cpp:238-256 | in every run, a packet of a tuple that no SYN admitted is left alone |
| `FlowProgress.HopSampleIsOfServer` | src/WinDivertInterceptor.cpp:527-537 | only the SYN-ACK that answers the relay is a sample, and it is one of the path to the server and port that was dialled |
| `Flows.AnnouncedFlowIsAccepted` | src/WinDivertInterceptor.cpp:511-521 | the flow announced for a client SYN has the peer address and port the relay accepts, and the server and port the client dialled |
| `Flows.TableHoldsOnlyAdmitted` | src/WinDivertInterceptor.cpp:443-544 | in every run a tuple in the table has its admitting SYN and nothing ended it since |
| `Flows.RewrittenOnlyAfterAllowedSyn` | src/WinDivertInterceptor.cpp:443-544 | in every run a rewritten non-SYN client packet, reply or answer has an allowed SYN before it with no reset or bypassed SYN since |
| `Flows.BypassedConnectionUntouched` | src/WinDivertInterceptor.cpp:443-470 | a bypassed connection is forwarded untouched |
| `Flows.ReplyReachesClientFromItsServer` | src/TransparentFlow.cpp:304-316 | the relay's reply is rewritten to exactly the reverse of the client's tuple |
| `Flows.AnswerReachesRelayFromDialledPort` | src/TransparentFlow.cpp:304-316 | the server's answer is rewritten to exactly the reverse of what the relay dialled |
| `Claims.FlowRegistry.Observe` | src/TransparentFlow.cpp:79-108 | the observation is written; entries are lost only if expired or to make room |
| `Claims.FlowRegistry.Claim` | src/TransparentFlow.cpp:110-124 | a claim takes the entry and succeeds if it is live |
| `Claims.ClaimConsumesObservation` | src/TransparentFlow.cpp:79-124 | in every run a successful claim consumes an observation of its own tuple made less than 15 s before, untouched since |
| `Claims.ClaimsAreDistinct` | src/TransparentFlow.cpp:79-124 | no two successful claims consume one observation |
| `Claims.EntryHasSource` | src/TransparentFlow.cpp:79-124 | in every run an entry is the last observation of its tuple |
| `Claims.ClaimSucceedsExactly` | src/TransparentFlow.cpp:79-124 | in every timely run, a claim succeeds if and only if its tuple was observed less than 15 s before, nothing touched it since, and no observation that found the table full gave it up as one with the earliest deadline |
| `FlowClaims.ClaimGoesBackToAllowedSyn` | src/WinDivertInterceptor.cpp:438-520 | in every interleaving of packets and claims, a successful claim goes back to a client SYN of its tuple that the rules allowed and the loop reflected less than 15 s before, and yields the port it dialled |
| `FlowClaims.EachSynIsClaimedOnce` | src/WinDivertInterceptor.cpp:438-520 | no two successful claims go back to one SYN |
| `FlowClaims.ServedExactlyAfterAllowedSyn` | src/WinDivertInterceptor.cpp:438-520 | while time does not run backwards, a connection is served if and only if such a SYN was reflected, nothing touched its tuple since, and no later flow that found the registry full took its place |
| `Claims.DatagramRegistry.Observe` | src/TransparentFlow.cpp:148-182 | an observation without address or port is ignored |
| `Claims.DatagramRegistry.Note` | src/TransparentFlow.cpp:152-182 | the count goes up to its bound, and starts again behind the deadline |
| `Claims.DatagramRegistry.Claim` | src/TransparentFlow.cpp:184-198 | a claim takes one datagram of the count |
| `Claims.ClaimsNeverExceedObservations` | src/TransparentFlow.cpp:148-198 | in every run claims plus outstanding never exceed observations of the tuple |
| `Claims.DatagramClaimIsBacked` | src/TransparentFlow.cpp:148-198 | in every run a successful claim had an observation of its tuple less than 15 s before |
| `Claims.DatagramClaimExactly` | src/TransparentFlow.cpp:148-198 | in every run, on a tuple that no deadline, bound or eviction disturbed, a claim succeeds if and only if fewer datagrams were taken than seen |
| `Claims.LateDatagramFails` | src/TransparentFlow.cpp:184-198 | in every run, a claim fifteen seconds after the last observation of its tuple fails |
| `PacketPolicies.PolicyRegistry.Arm` | src/PacketStrategy.cpp:266-281 | the policy waits for the connection, not applied |
| `PacketPolicies.PolicyRegistry.ObserveHop` | src/PacketStrategy.cpp:283-306 | a usable hop sample is kept |
| `PacketPolicies.PolicyRegistry.Take` | src/PacketStrategy.cpp:308-359 | the first take binds the sequence number and resolves AutoTTL |
| `PacketPolicies.PolicyRegistry.NoteApplied` | src/PacketStrategy.cpp:361-371 | the entry is marked applied |
| `PacketPolicies.PolicyRegistry.ConsumeApplied` | src/PacketStrategy.cpp:373-384 | the mark is read and the entry taken |
| `PacketPolicies.PolicyRegistry.PruneIfDue` | src/PacketStrategy.cpp:256-264 | before the next sweep is due nothing changes; a sweep drops exactly the expired entries and puts the next one a second off |
| `PacketPolicies.PolicyRegistry.Clear` | src/PacketStrategy.cpp:386-391 | everything is forgotten |
| `PacketPolicies.RetransmissionsGetTheSameTreatment` | src/PacketStrategy.cpp:308-359 | between two armings all successful sequence-aware takes return one policy for one sequence number |
| `PacketPolicies.TakeHandsOutWhatWasArmed` | src/PacketStrategy.cpp:315-359 | every take hands out the policy of the last arming: unchanged unless it relies on AutoTTL, and then resolved to a TTL of at least 2 and below a sampled path length, or as bad-sequence, and in no other way |
| `PacketPolicies.AppliedOnlyIfReported` | src/PacketStrategy.cpp:361-384 | the prober hears "applied" only if the loop reported it between the last arming and the question |
| `PolicyProgress.FirstTakeSucceeds` | src/PacketStrategy.cpp:315-359 | in every run, the first take of an entry that nothing removed since its arming, within fifteen seconds, gets the armed policy |
| `PolicyProgress.LaterTakeExactly` | src/PacketStrategy.cpp:331-338 | after a take for a segment, another take of that entry succeeds, with the same policy, if and only if it is for the same segment |
| `PolicyProgress.AutoTtlExactly` | src/PacketStrategy.cpp:345-357 | in every run, AutoTTL comes out with one hop less than the last sample of the path that is less than fifteen seconds old, if that has three hops or more, and as the bad-sequence trick if and only if there is none |
| `PolicyProgress.ReportIsTold` | src/PacketStrategy.cpp:361-384 | in every run, a report of an entry that nothing removed since is told for sixty seconds |
| `Expiring.MakeRoom` | src/PacketStrategy.cpp:239-252 | expired entries go first, then one closest to its deadline |
| `Expiring.FindOldest` | src/PacketStrategy.cpp:239-252 | the scan finds an entry with the earliest deadline |
| `Expiring.WriteBounded` | src/PacketStrategy.cpp:239-252 | the table never grows over its capacity |
| `Recovery.WorkerHealth.Observe` | src/RecoveryPolicy.cpp:49-77 | the counters after one response |
| `Recovery.WorkerHealth.BackingOff` | src/RecoveryPolicy.cpp:84-87 | true if and only if the pause asked for by some 429 of the run, noted before the Worker was given up, has not ended yet |
| `Recovery.PausedExactlyByRateLimits` | src/RecoveryPolicy.cpp:53-60 | after every run the pause ends exactly when the last of the noted 429 responses wanted it to: what it asked for, five seconds if nothing, thirty at most |
| `Recovery.PauseIsBounded` | src/RecoveryPolicy.cpp:53-60 | with non-decreasing time the end of the pause never moves back and is at most thirty seconds past the last response |
| `Recovery.LatchesExactlyOnSustainedFailure` | src/RecoveryPolicy.cpp:49-77 | with non-decreasing time the Worker is given up if and only if some stretch has five failures, nothing healthy among them, gaps of at most 60 s and a span of at least 15 s |
| `Recovery.RateLimitsNeverMatter` | src/RecoveryPolicy.cpp:49-77 | inserting or leaving out 429 responses anywhere never changes whether it is given up |
| `Recovery.RestartBudget.Consume` | src/RecoveryPolicy.cpp:93-98 | the attempt's number, or 0 when the window is full |
| `Recovery.RestartBudget.Purge` | src/RecoveryPolicy.cpp:104-108 | attempts a window old go |
| `Recovery.RestartBudget.Reset` | src/RecoveryPolicy.cpp:100-102 | the window is empty again |
| `Recovery.GrantedRestartsAreSpread` | src/RecoveryPolicy.cpp:93-108 | any maxAttempts+1 granted restarts span at least the window |
| `Recovery.RefusedExactlyWhenWindowFull` | src/RecoveryPolicy.cpp:93-108 | a restart is refused if and only if the window already holds maxAttempts grants |

## Left out

- The user interface (`src/DashboardPanel.cpp`, `src/TrayApp.cpp`, `src/Console.hpp`): Direct2D, Win32 and tray code.
- WinHTTP and Winsock wrappers (`src/Http.cpp`, `src/WsClient.cpp`, `src/Relay.cpp`, `src/TcpConnect.cpp`): sockets appear only as send and receive steps with any outcome.
- Telemetry (`src/Telemetry.cpp`): SQL run by SQLite.
- DPAPI, file, registry and COM calls (`src/Secure.cpp`, `src/FileUtil.cpp`, `src/SystemProxy.cpp`, `src/NetworkIdentity.cpp`): an atomic write is a step that succeeds or fails.
- Setup, process launching and wiring (`src/Setup.cpp`, `src/Wrangler.cpp`, `src/main.cpp`).
- Building, checksumming and re-sending packets through the driver (`src/WinDivertPacket.cpp`, the send and retry part of `src/WinDivertInterceptor.cpp`).
- Looking up the owner of a connection (`src/ProcessFilter.cpp`, lines 126 to 280): whether the rules bypass a SYN is an input of the packet loop.
- The remote Worker (`worker/src/index.js`).
- `Resolver::resolve` with its single flight and address cache: its result is an input of the DNS reply.
- What the Worker tunnel does with the buffer it is handed: it may send on any part of it.
- Agreement of the file with pending legacy nominations over runs: a snapshot's nominations come back, but editing or evicting one does not always take a snapshot, so the claims about restarts over whole runs are about winners.
- How decisions differ after the first Initial that a skipped QUIC answer lets be decided otherwise: the exact condition is about that Initial, and from then on only a run in which they differ is given.
- Overflow of 64-bit clocks in the store, the wire cache and the flow tables: times are unbounded there (the recovery and QUIC registries model the wrap-around).
- The two-argument overload of `remember`, which learns directly with an unknown kind: `Learning.Learn` models the step, and the claims about confirmed winners are made for the kinds a diagnosis can return.
