# feGEM in Dafny

feGEM brings data from LabVIEW and Python clients into the MIDAS data acquisition system. A supervisor
process admits hosts and gives each of them a worker with a port of its own; a worker takes bank arrays off
a socket, writes slow control values to the history, answers in JSON and sends the bytes on; an analyzer
sorts the entries of every bank into trees. This project models these parts and proves what they promise.

| files | part of feGEM |
|---|---|
| `HostPattern` `HostAdmission` `AdmissionRuns` `ConcurrentAdmission` | wildcard comparison, the three host lists, their guarantees over runs of calls and over interleaved threads |
| `GemBank` `BankNames` `FileHeader` `StringArray` | the wire format, its names and the texts inside banks |
| `Throttle` `HistoryLogger` `HistoryRuns` | the history of each variable and the header rewrite |
| `FrontEnd` `WalkRuns` `WalkHistory` | the walk of a worker over a bank array |
| `Analyzer` `AnalyzerRuns` | the second walk, and the trees |
| `Packing` `SocketReader` `Pipeline` `PipelineRuns` `HostTrees` | from the fields a client packs, through the pieces of a message, to the trees |
| `ClientBytes` `ClientBanks` `ClientTrees` | what a client packs, byte by byte, and what becomes of it in worker and analyzer |
| `Base64` `Json` `MessageHandler` `Replies` | the replies, as a client reads them |
| `SettingsStore` | settings files saved, chosen and loaded |
| `Supervisor` `SupervisorRuns` | worker numbers and ports |

Classes of the source are classes here, with the same fields and loops. Each method is proved against a
function of the old state; the theorems about whole runs are lemmas about these functions. A buffer is an
array of 8-bit characters; a method that walks over it takes the bytes of the bank it expects there as a
ghost parameter. The decoder of section 4 of RFC 4648, the reader of RFC 8259 and the glob language are
definitions of this project that the source does not have; they are what its output is measured by. So are the
packets of `ClientBytes`, which write the layout of a bank down a second time, in bytes and numbers of their own.

Main theorems: `Pipeline.ServeHost`, `PipelineRuns.RowsOfAllMessages`, `AnalyzerRuns.TreesPartition`,
`WalkRuns.CountIsConserved`, `WalkHistory.HistoryOfAllArraysIsOptimal`, `HostPattern.AcceptsItsWordsIff`,
`SettingsStore.LoadIsLastSaveIff`, `SettingsStore.LoadReturnsLastSave`, `Replies.EverythingIsDeliveredOnce`,
`Replies.ReplyReadsBackIff`, `AdmissionRuns.AllowedIsLetIn`, `AdmissionSchedule` and `BudgetHoldsIff`,
`ConcurrentAdmission.InterleavedBudget` and `OdbStaysCopiedIff`, `GemBank.PayloadPartition`,
`SocketReader.ReceivedIff` and `StaysInsideIff`, `SupervisorRuns.OnePortPerHost` and `PortByPlace`,
`ClientBanks.HistoryOfPackets` and `SetEventSize`, `ClientTrees.TreesOfPackets`.

Where a promise fails, the project says exactly when it holds and shows an input for which it does not:
patterns with literals behind a star, host names that do not match themselves, bans by the retry limit, calls
in flight when their host is banned, blanks between the names of an ODB array, registrations that overlap, a
first history time or a gap of 2^31 seconds or more, save times that gain a digit, data with backslashes,
messages in pieces below 88 bytes, arrays that leave no room for the headers in the event buffer, hosts after
the 65536th, worker numbers that wrap around to port zero, `local_host` when it is not the first to ask, a
blank inside THISHOST.

Code and documentation disagree in four places, and the model follows the code: the cool-down is 1000
milliseconds where the comment says ten seconds (src/AllowedHosts.cxx:32-35); the offset of a LOAD request
is accepted and never used (src/SettingsFileDatabase.cxx:161-211); the array header has 16 bytes where the
comment says 32 (src/feGEMClass.cxx:676, libGEM/include/GEM_BANK.h:361-370); and the error queue that makes
a worker stop is never filled, because errors are queued as messages (src/MessageHandler.cxx:115-124).

## Model

| member | source | states |
|---|---|---|
| HostPattern.EqualsHostname | include/AllowedHosts.h:22-60 | the two-index loop decides exactly the recursive leftmost-scan relation; both indices reach the terminators at most, for every pattern and name |
| HostPattern.ScanForward | include/AllowedHosts.h:46-48 | the inner scan stops at the first occurrence of the character after the star, or at the terminator |
| HostPattern.AcceptedIffTokensSpell | include/AllowedHosts.h:22-60 | a name is accepted if and only if some leading run of the pattern read as tokens spells it; the rest of the pattern is never looked at |
| HostPattern.AcceptedExtendsToGlob | include/AllowedHosts.h:21-60 | soundness against the documented wildcards: an accepted name can be completed to a word of the glob language of the pattern |
| HostPattern.WildcardFreeIsPrefix | include/AllowedHosts.h:28-59 | without wildcards a name is accepted if and only if it is a prefix of the listed one |
| HostPattern.StarFreeFits | include/AllowedHosts.h:28-59 | without a star: accepted if and only if the name fits position by position; glob word if and only if it also has full length |
| HostPattern.StarFreeAgreesWithGlobIff | include/AllowedHosts.h:21-60 | without a star the answer is the documented one except, exactly, for a proper part of a longer pattern |
| HostPattern.AcceptsItsWordsIff | include/AllowedHosts.h:40-56 | for every pattern: all words the documented wildcards admit are accepted if and only if, from the first star on, no star waits for a wildcard, no literal follows and a star comes last |
| HostPattern.RefusedWord | include/AllowedHosts.h:40-56 | for every other pattern a word of it that is refused |
| HostPattern.AgreesWithGlobIff | include/AllowedHosts.h:21-60 | the documented answer is given to every name if and only if the pattern is empty or a single star |
| HostPattern.StarRefusesAGlobWord | include/AllowedHosts.h:40-56 | a short example: "*.ch" does not accept "a.b.ch" |
| HostPattern.WildcardFreeMatchesItself | include/AllowedHosts.h:28-59 | a name without wildcards is recognised by its own list entry |
| HostPattern.SomeNamesDoNotMatchThemselves | include/AllowedHosts.h:40-56 | a name with stars may not be: "**a" |
| HostAdmission.FirstMatch | src/AllowedHosts.cxx:113-118 | the entry every look-up loop stops at: the first that matches, or none |
| HostAdmission.Without | src/AllowedHosts.cxx:179 | list::remove keeps exactly the entries of other names |
| HostAdmission.WithoutConcat | src/AllowedHosts.cxx:179 | and keeps them in order, each as often as it was there |
| HostAdmission.WriteIndex | src/AllowedHosts.cxx:131 | writing one element of an ODB array grows it with blanks and changes no other element |
| HostAdmission.AllowedHosts.constructor | src/AllowedHosts.cxx:32-74 | each list holds the non-blank names of its ODB array in order; growing the array by ten blanks changes nothing a reload would give |
| HostAdmission.AllowedHosts.LoadList | src/AllowedHosts.cxx:44-50 | the loading loop |
| HostAdmission.AllowedHosts.IsListedAsAllowed | src/AllowedHosts.cxx:109-120 | true if and only if some entry matches |
| HostAdmission.AllowedHosts.IsListedAsBanned | src/AllowedHosts.cxx:153-164 | true if and only if some entry matches |
| HostAdmission.AllowedHosts.IsListedAsQuestionable | src/AllowedHosts.cxx:166-201 | the new value of all lists and the answer, branch by branch: newcomer, over the limit, cooled down, too early |
| HostAdmission.AllowedHosts.IsAllowed | src/AllowedHosts.cxx:92-107 | allowed before banned before self-registration before the questionable list |
| HostAdmission.AllowedHosts.AddHost | src/AllowedHosts.cxx:122-137 | a new name goes to the end of the list and to the ODB slot of that index |
| HostAdmission.AllowedHosts.BanHost | src/AllowedHosts.cxx:139-151 | the same for the banned list |
| HostAdmission.AllowedHosts.PrintRejection | src/AllowedHosts.cxx:76-90 | counts at the first matching entry; silent after 2 * RETRY_LIMIT with one last message |
| HostAdmission.CompactReload | src/AllowedHosts.cxx:44-50 | an ODB array reloads to its own leading part if and only if no blank stands before a name |
| HostAdmission.AppendedNameReloadsIff | src/AllowedHosts.cxx:44-57 | writing a new name at the index the class uses extends a reload by that name if and only if no blank stands before a name |
| HostAdmission.AppendToCompact | src/AllowedHosts.cxx:122-133 | and then none does afterwards |
| AdmissionRuns.PerformEffect | src/AllowedHosts.cxx:166-200 | any call by any host: an admission through the entry of h costs one of its remaining admissions and comes more than the cool-down after the last contact; any other call leaves that entry unchanged |
| AdmissionRuns.AdmissionSchedule | src/AllowedHosts.cxx:92-107 | over every run of calls: a host that matches its own name and never becomes allowed gets in at most Remaining times, at times more than the cool-down apart |
| AdmissionRuns.AdmissionBudget | src/AllowedHosts.cxx:166-201 | from an empty questionable list: at most RETRY_LIMIT + 3 admissions |
| AdmissionRuns.BannedIsForever | src/AllowedHosts.cxx:97-98 | once its name is banned a host is never admitted again, whatever its name matches, even through entries shared with other names |
| AdmissionRuns.ListsOnlyGrow | src/AllowedHosts.cxx:122-151 | no call takes a name off the allowed or the banned list |
| AdmissionRuns.AdmissionsTakeTime | src/AllowedHosts.cxx:182-200 | k admissions span more than k - 1 cool-downs |
| AdmissionRuns.BudgetIsReached | src/AllowedHosts.cxx:173-190 | a run with exactly RETRY_LIMIT + 3, that is 13, admissions exists for every such host |
| AdmissionRuns.AllowedIsLetIn | src/AllowedHosts.cxx:92-96 | over every run: a host that some allowed entry matches is let in at every visit, whatever calls come between, bans of it included, and the visit changes no list |
| AdmissionRuns.RegisteredIsLetIn | src/AllowedHosts.cxx:92-137 | so is, from then on, a host that has been registered and matches its own name |
| AdmissionRuns.ClosedListDecides | src/AllowedHosts.cxx:95-100 | without self-registration every visit of every run is answered by whether an allowed entry matches, and changes no list |
| AdmissionRuns.OpenListDecides | src/AllowedHosts.cxx:101-107 | with it, a host neither allowed nor banned is let in exactly when it is a newcomer or its entry was last contacted more than 1000 ms ago |
| AdmissionRuns.ThirteenAdmissions | src/AllowedHosts.cxx:166-201 | in numbers: at most 13 admissions, more than 1000 ms apart |
| AdmissionRuns.RejectionsAnnounced | src/AllowedHosts.cxx:76-90 | the rejections of a banned host are announced up to 20 times, then once as the last, then no more |
| AdmissionRuns.NewBanIsAnnounced | src/AllowedHosts.cxx:76-90 | for a host banned by name these are its first rejections |
| AdmissionRuns.OnlyNewNamesAreAdded | src/AllowedHosts.cxx:122-151 | a host the list recognises is not added again; any other becomes the last entry |
| AdmissionRuns.AllowedStaysApart | src/AllowedHosts.cxx:122-137 | over every run no entry of the allowed list is matched by an earlier one |
| AdmissionRuns.AlwaysANewcomer | src/AllowedHosts.cxx:198-200 | over every run in which nothing it matches is listed, a host that does not match its own name is let in at every visit |
| AdmissionRuns.BudgetHoldsIff | src/AllowedHosts.cxx:166-201 | the budget holds on all runs if and only if the name matches itself |
| AdmissionRuns.AllowedStaysMirrored | src/AllowedHosts.cxx:122-137 | over every run that adds no blank name the allowed array reloads to the allowed list; a list with an entry never takes a blank name |
| AdmissionRuns.BannedStaysMirrored | src/AllowedHosts.cxx:139-180 | over every run each slot of the banned array is blank or names the list entry of its index |
| AdmissionRuns.RetryBanIsNotWritten | src/AllowedHosts.cxx:175-180 | a ban by the retry limit leaves the ODB as it was: no list loaded from it names the host |
| AdmissionRuns.BannedStaysCopiedIff | src/AllowedHosts.cxx:139-180 | over every run the banned array reloads to the banned list if and only if no contact of the run is one by which the retry limit bans a host; again blank names only matter to an empty list |
| ConcurrentAdmission.InterleavedBudget | src/AllowedHosts.cxx:92-107 | threads whose calls take the lock once per list: on every interleaving the admissions stay within the allowance of the starting state |
| ConcurrentAdmission.SharedBudget | src/AllowedHosts.cxx:109-201 | n threads let a host in at most RETRY_LIMIT + 2 + n times |
| ConcurrentAdmission.SharedBudgetIsReached | src/AllowedHosts.cxx:92-201 | and for every n some interleaving reaches that number |
| ConcurrentAdmission.BannedBudget | src/AllowedHosts.cxx:153-180 | a banned host gets in at most as often as it has calls past the banned-list check |
| ConcurrentAdmission.BanHoldsWhenNoneInFlight | src/AllowedHosts.cxx:153-180 | with no such call in flight it is not admitted again, whatever its name matches |
| ConcurrentAdmission.BanIsFinalIff | src/AllowedHosts.cxx:92-107 | a ban is final on every interleaving if and only if no call by the host is past the banned-list check |
| ConcurrentAdmission.UninterruptedCall | src/AllowedHosts.cxx:92-107 | a call running alone takes the three checks in order until it has its answer: it lets the host in by its last step if and only if the sequential call does, and leaves the same lists |
| ConcurrentAdmission.AdmittedAfterBan | src/AllowedHosts.cxx:166-200 | with two threads a host can be let in after the step that banned it |
| ConcurrentAdmission.UninterruptedAdd | src/AllowedHosts.cxx:122-137 | an AddHost running alone is its push and then its write |
| ConcurrentAdmission.OdbStaysCopiedIff | src/AllowedHosts.cxx:122-137 | any number of AddHost calls, their unlocked writes interleaved with each other and with steps of any other calls: once all writes are done the ODB holds the allowed list if and only if no name was pushed while another waited for its write |
| ConcurrentAdmission.OverlappingAddsLoseAName | src/AllowedHosts.cxx:126-131 | a short example: two calls one after the other keep the copy; if both pushes come first a name is lost |
| Base64.TableIsAlphabet | src/SettingsFileDatabase.cxx:120-124 | the table is the alphabet of section 4 of RFC 4648, in order |
| Base64.base64_encode | src/SettingsFileDatabase.cxx:114-158 | the loop computes the encoding group by group |
| Base64.DecodeEncode | src/SettingsFileDatabase.cxx:131-157 | the decoder of section 4 of RFC 4648 gives back every byte sequence |
| Base64.EncodeDecode | src/SettingsFileDatabase.cxx:131-157 | every text the decoder accepts, with zero padding bits as it demands, is the encoding of its result |
| Base64.EncodeInjective | src/SettingsFileDatabase.cxx:131-157 | different bytes, different texts |
| Base64.EncodeAlphabet | src/SettingsFileDatabase.cxx:117-151 | only characters of the alphabet, with at most two padding signs at the end |
| Json.EscapedReadsBackIff | src/MessageHandler.cxx:48-54 | data printed with the one escape the printer knows reads back (section 7 of RFC 8259), whatever text follows, if and only if it has no backslash and no control character |
| Json.CopiedReadsBackIff | src/MessageHandler.cxx:87-91 | data copied without escapes reads back, whatever text follows, if and only if it has no quote either |
| Json.ObjectReadsIff | src/MessageHandler.cxx:87-104 | an object reads back, whatever text follows, if and only if each of its members does |
| Json.ObjectParses | src/MessageHandler.cxx:131-152 | members that each read back, joined by commas and braced, parse to the object of all of them |
| MessageHandler.MessageHandler.QueueData | src/MessageHandler.cxx:34-57 | appends one printed member with quotes escaped and adds its length to TotalText |
| MessageHandler.MessageHandler.QueueObject | src/MessageHandler.cxx:59-104 | appends one printed object with its fields copied as they are |
| MessageHandler.MessageHandler.PushField | src/MessageHandler.cxx:79-91 | one field of that object |
| MessageHandler.MessageHandler.QueueMessage | src/MessageHandler.cxx:105-113 | queues a text whose quotes are escaped already, and escapes them again |
| MessageHandler.MessageHandler.QueueError | src/MessageHandler.cxx:115-124 | an error goes to the message queue, so the error queue stays empty |
| MessageHandler.MessageHandler.HaveErrors | include/MessageHandler.h:23 | true if and only if the error queue is not empty |
| MessageHandler.MessageHandler.ReadMessageQueue | src/MessageHandler.cxx:126-153 | the reply made of the time and both queues in order, which are then empty; TotalText is not reset |
| Replies.ReplyRoundTrip | src/MessageHandler.cxx:126-153 | a reply over at least one clean item parses to MIDASTime followed by the queued members in order |
| Replies.EmptyReplyDoesNotParse | src/MessageHandler.cxx:131-152 | a reply over nothing is not JSON |
| Replies.ReplyParsesIff | src/MessageHandler.cxx:126-153 | a reply over clean items parses if and only if there is one |
| Replies.ReplyReadsBackIff | src/MessageHandler.cxx:34-153 | for all queued items: a reply parses to the time and exactly these items in order if and only if there is an item and all are clean; no other item, whatever it holds and whatever follows it, can be read back as itself |
| Replies.HandledReplyParses | src/feGEMClass.cxx:788-792 | with the message queued before every reply it always parses, to all members and that message |
| Replies.EverythingIsDeliveredOnce | src/MessageHandler.cxx:34-153 | over every run of queueing and reading: what a client reads out of all replies, then what is still queued, is everything queued, once and in order |
| Replies.DataReadsBackIff | src/MessageHandler.cxx:48-54 | which data survives inside a reply, for both forms of a queued item |
| Replies.EscapedQuoteIsGarbled | src/MessageHandler.cxx:107-112 | a message that passes the assertion because its quotes are escaped never reads back, whatever follows it |
| SettingsStore.SettingsFileDatabase.ReadName | src/SettingsFileDatabase.cxx:18-27 | the loop over one name: the C string without slashes, and where it ends |
| SettingsStore.SettingsFileDatabase.ReadFrame | src/SettingsFileDatabase.cxx:11-41 | the three parts of the frame |
| SettingsStore.FrameRoundTrip | src/SettingsFileDatabase.cxx:11-41 | what a client frames is taken apart again, whatever bytes the file holds |
| SettingsStore.SettingsFileDatabase.SaveSettingsFile | src/SettingsFileDatabase.cxx:43-93 | the store gains the version under its time and the checksum file, nothing else changes |
| SettingsStore.SettingsFileDatabase.LoadSettingsFile | src/SettingsFileDatabase.cxx:162-272 | queues the five fields of the last entry of the listing |
| SettingsStore.ChosenIff | src/SettingsFileDatabase.cxx:202-211 | a given entry is chosen if and only if no entry beginning with the file name sorts behind it |
| SettingsStore.DecimalOrder | src/SettingsFileDatabase.cxx:53-56 | with equally many digits the order of names is the order of times |
| SettingsStore.NewestIsLast | src/SettingsFileDatabase.cxx:43-93 | after every history of orderly saves the newest version is stored and nothing beginning with the name sorts behind it |
| SettingsStore.LastVersionChosenIff | src/SettingsFileDatabase.cxx:202-211 | over every history: the version of the last save is chosen if and only if nothing a save of the project has written under the beginning of that name sorts behind it |
| SettingsStore.LoadIsLastSaveIff | src/SettingsFileDatabase.cxx:43-93 | and its contents are those of the last save if and only if the last save to write an entry of that name wrote them |
| SettingsStore.TimesDecide | src/SettingsFileDatabase.cxx:53-56 | for a file whose name no other entry begins with, the last save is chosen if and only if no earlier time is behind its own as a text |
| SettingsStore.ContentsAreKept | src/SettingsFileDatabase.cxx:50-56 | only a file called "md5", or whose name begins with "md5.", can lose its contents to a checksum |
| SettingsStore.OrderlySavesAreLoaded | src/SettingsFileDatabase.cxx:43-93 | saves in order, of a name of their own and with equally many digits, meet both conditions |
| SettingsStore.LoadReturnsLastSave | src/SettingsFileDatabase.cxx:162-272 | end to end, under exactly these conditions: the reply to a load parses to the project, file, time and checksum of the last save, and its data decodes to the bytes saved |
| SettingsStore.ChecksumFileCanBeChosen | src/SettingsFileDatabase.cxx:50 | for a file called "m" the load returns its own checksum file |
| SettingsStore.ChecksumCanReplaceAVersion | src/SettingsFileDatabase.cxx:90-93 | the checksum of a file called "12" replaces the version of "md5" saved at time 12 |
| SettingsStore.OlderVersionCanBeChosen | src/SettingsFileDatabase.cxx:204-211 | an example of a time that gains a digit: the load returns the older version |
| GemBank.change_endian | libGEM/include/GEM_BANK.h:8-17 | the swapping loop reverses the bytes in place |
| GemBank.ReversedTwice | libGEM/include/GEM_BANK.h:8-17 | twice is the identity |
| GemBank.SizeArithmeticExact | libGEM/include/GEM_BANK.h:264-278 | for every bank of a 32-bit size the wrapping size arithmetic gives the real size |
| GemBank.EntryInBank | libGEM/include/GEM_BANK.h:309-314 | every GetDataEntry region is inside the bank and ends where the next begins |
| GemBank.Low32Bits | src/HistoryLogger.cxx:151 | conversions to 32 bits keep the low 32 bits, signed or unsigned |
| GemBank.WriteReadBank | libGEM/include/GEM_BANK.h:223-232 | header and entries written down are read back unchanged |
| GemBank.MakeArrayIsArray | libGEM/include/GEM_BANK.h:359-375 | the array message of any list of banks is well-formed |
| GemBank.BankAtOffset | libGEM/include/GEM_BANK.h:359-375 | each bank stands in the payload where the sizes before it say |
| GemBank.PayloadPartition | libGEM/include/GEM_BANK.h:264-315 | every byte of the payload lies in exactly one bank header or entry, and none of these reaches outside |
| BankNames.SanitiseBankString | libGEM/include/GEM_BANK.h:165-195 | the buffer-filling loop is filter then truncate, and never writes past index assert_size |
| BankNames.SanitisedTwice | libGEM/include/GEM_BANK.h:165-195 | sanitising is idempotent |
| BankNames.NamesFromMemory | libGEM/include/GEM_BANK.h:197-201 | reading the unbounded memory behind a field gives the name of the field, if it is terminated or full of kept characters |
| BankNames.SettlesItselfIff | libGEM/include/GEM_BANK.h:197-201 | and only then: any other field takes characters of what stands behind it into the name |
| BankNames.CombinedNameDetermines | libGEM/include/GEM_BANK.h:202-208 | equal combined names have equal parts |
| BankNames.FileKeysApart | libGEM/src/feGEM_module.cxx:242 | the key of a file bank is never the key of a data bank |
| Throttle.DueAsIntendedIff | src/HistoryLogger.cxx:150-153 | the 32-bit comparison is the intended one if and only if the elapsed time is short of the period or its low half lies between the period and 2^31 |
| Throttle.SilentAfter2038 | src/HistoryLogger.cxx:102 | a variable first seen after 2^31 seconds is not written |
| Throttle.WrittenIsSpaced | src/HistoryLogger.cxx:150-162 | for ascending times without any bound, the writes are offered times spaced by the period |
| Throttle.WrittenAsIntendedIff | src/HistoryLogger.cxx:150-162 | over every run of ascending times the writes are those of the throttle without truncation if and only if each test of the run meets an elapsed time in reach |
| Throttle.GapsInReachIff | src/HistoryLogger.cxx:150-153 | every run whose gaps, the one before the first time included, are at most g seconds stays in reach if and only if g and the period add up to at most 2^31; absolute times do not matter |
| Throttle.StaysAhead | src/HistoryLogger.cxx:150-162 | in reach, greedy stays ahead of any spaced choice that starts no earlier |
| Throttle.ThrottleOptimal | src/HistoryLogger.cxx:145-162 | the writes are spaced offered times, the intended ones if and only if every test is in reach, and then no spaced choice of the same times has more points |
| HistoryLogger.HistoryVariable.constructor | src/HistoryLogger.cxx:90-123 | period, host name cut to 31 characters, THISHOST flag; the last update is set unless the period is zero |
| HistoryLogger.HistoryVariable.IsMatch | src/HistoryLogger.cxx:125-133 | true if and only if sanitised category and variable agree |
| HistoryLogger.HistoryVariable.Rename | src/HistoryLogger.cxx:138-144 | only the equipment field of the bank changes, to the host name; the two assertions hold |
| HistoryLogger.HistoryVariable.WriteIfDue | src/HistoryLogger.cxx:145-162 | writes the last entry if the period has passed; the last update is read only if it is set |
| HistoryLogger.HistoryVariable.Update | src/HistoryLogger.cxx:135-165 | both, with the buffer outside the bank unchanged |
| HistoryLogger.StrCpy | src/HistoryLogger.cxx:143 | the string and its terminator, nothing else |
| HistoryLogger.Renamed | src/HistoryLogger.cxx:143 | the host name stands in the equipment field, terminated, and every other byte is as before |
| HistoryLogger.ThrottledForwarded | src/HistoryLogger.cxx:143-160 | the rename does not change what the throttle sees |
| HistoryLogger.HistoryLogger.SetClientHostname | include/HistoryLogger.h:77-80 | the name new variables get |
| HistoryLogger.HistoryLogger.AddNewVariable | src/HistoryLogger.cxx:195-241 | appends one variable |
| HistoryLogger.HistoryLogger.FindMatch | src/HistoryLogger.cxx:246-255 | the first match or none |
| HistoryLogger.HistoryLogger.Find | src/HistoryLogger.cxx:243-262 | the first match, or a new last one |
| HistoryLogger.HistoryLogger.Update | include/HistoryLogger.h:86-91 | variables, history and buffer after one bank |
| HistoryRuns.LogKeepsUnique | src/HistoryLogger.cxx:243-262 | one bank keeps the names apart |
| HistoryRuns.OneVariablePerName | src/HistoryLogger.cxx:195-262 | over every run exactly one variable exists for each name logged, and keeps its place |
| HistoryRuns.VariableWrites | src/HistoryLogger.cxx:135-165 | what a variable writes is the throttle over its own times, whatever other banks come between |
| HistoryRuns.NewVariableWrites | src/HistoryLogger.cxx:96-102 | the first bank of a name decides its period |
| HistoryRuns.HistoryIsOptimal | src/HistoryLogger.cxx:96-162 | over every run the history of each name is spaced; it is the intended one if and only if every test is in reach, and then as dense as any spaced choice |
| FrontEnd.FeGem.constructor | src/feGEMWorker.cxx:16-23 | a worker starts without variables and history, and names its banks after its client |
| FrontEnd.FeGem.HandleCommandBank | src/feGEMClass.cxx:177-251 | SET_EVENT_SIZE never shrinks the size and never leaves it below 10000; the debug commands set the mode |
| FrontEnd.NewEventSize | src/feGEMClass.cxx:240-247 | the new size is the largest of old, requested and minimum |
| FrontEnd.FeGem.HandleCommands | src/feGEMClass.cxx:317-325 | one command after the other, over the entries of the bank |
| FrontEnd.FeGem.LogBank | src/feGEMClass.cxx:454-527 | where a bank of each type goes and what that changes |
| FrontEnd.FeGem.HandleBank | src/feGEMClass.cxx:554-571 | the size check against the present event size, then the dispatch |
| FrontEnd.FeGem.HandleBanks | src/feGEMClass.cxx:543-551 | the loop handles bank after bank, each from the state the one before left, and steps by the size in the header it may have rewritten |
| FrontEnd.FeGem.HandleBankArray | src/feGEMClass.cxx:529-552 | an array over the event size is refused unchanged; any other becomes the array of the sent banks |
| FrontEnd.Handle | src/feGEMClass.cxx:554-571 | whatever the bank, only its equipment field can change, the event size does not shrink and the variables stay sound |
| WalkRuns.HandleChanges | src/HistoryLogger.cxx:138-144 | a bank changes only if its category begins with THISHOST |
| WalkRuns.EventSizeNeverShrinks | src/feGEMClass.cxx:177-188 | over the walk the event size only grows |
| WalkRuns.CountIsConserved | src/feGEMClass.cxx:529-571 | when the array fits, no bank is rejected and the result is the number of all entries, even when a bank changes the event size |
| WalkRuns.SentIsArray | src/feGEMClass.cxx:529-552 | what is sent on is a well-formed array of the same size |
| WalkRuns.ChangedBytes | src/HistoryLogger.cxx:138-144 | a changed byte lies in the 32-byte equipment field of a THISHOST bank |
| WalkHistory.WalkLogsDataBanks | src/feGEMClass.cxx:543-551 | the variables and the history after a walk are those of its data banks logged in turn |
| WalkHistory.ArraysLogDataBanks | src/feGEMClass.cxx:529-571 | from any state, over any arrays handled one after the other: the variables and the history are those of the data banks of all arrays not refused |
| WalkHistory.ArraysKeepOneVariablePerName | src/feGEMClass.cxx:529-571 | the names stay unique over all arrays, and every variable keeps its place |
| WalkHistory.ArraysContinueHistory | src/HistoryLogger.cxx:145-162 | what a variable already there writes goes on from its last write, over all arrays |
| WalkHistory.HistoryOfAllArraysIsOptimal | src/feGEMClass.cxx:454-571 | over all the arrays a worker ever handles: one variable for each name, and a history that is optimal in that sense |
| StringArray.HandleStrArrayBank | src/feGEMClass.cxx:276-292 | the splitter collects the strings between the NULs |
| StringArray.StringsOfTerminated | src/feGEMClass.cxx:276-292 | empty strings are lost, all others arrive in order |
| StringArray.StringArrayReadsBackIff | src/feGEMClass.cxx:276-292 | an array arrives as sent if and only if no string is empty |
| SocketReader.TcpSocket.Read | src/feGEMClass.cxx:682-684 | one read copies what has arrived, at most what is asked for |
| SocketReader.TcpSocket.ReadHeader | src/feGEMClass.cxx:678-705 | the loop ends at the first read that alone brings 88 bytes, at an empty first read, or after 100000 reads; it needs room for what the message brings up to the event size |
| SocketReader.TcpSocket.ReadBody | src/feGEMClass.cxx:707-743 | never reads beyond BankSize; done if and only if it is reached within the limit; how much has been read |
| SocketReader.TcpSocket.ReadMessage | src/feGEMClass.cxx:671-747 | the outcome, and how much has been read, as functions of the bytes and the pieces; the buffer holds exactly that much |
| SocketReader.StaysInsideIff | src/feGEMClass.cxx:670-743 | in all pieces whatever, what is read stays inside the memory behind the pointer if and only if there is room for what the message brings up to the event size and, if that is more, up to the size it declares |
| SocketReader.EventBufferHoldsIff | src/feGEMClass.cxx:600-670 | with the memory the source reserves, the event size for headers and message together: if and only if headers and message fit into it |
| Pipeline.AcceptedYetOutside | src/feGEMClass.cxx:529-540 | otherwise: an array within the event size but longer than the headers leave arrives, passes the check of its size and ends outside the event buffer |
| Packing.FullArrayEndsOutside | src/feGEMClass.cxx:665-743 | the input: for every event size an array of exactly that size, accepted by both walks |
| SocketReader.ReceivedIff | src/feGEMClass.cxx:671-747 | a single message arrives if and only if the first read is not empty, a read within the limit brings 88 bytes at once and the rest follows within the limit |
| SocketReader.MalformedIff | src/feGEMClass.cxx:710-731 | a sender is taken for malformed if and only if a header arrives in time that begins with neither GEA1 nor GEB1 |
| SocketReader.ArrivesAtIff | src/feGEMClass.cxx:680-743 | a message the event buffer can hold needs, in all, as many bytes as it has within the limits |
| SocketReader.ChunkingIndependence | src/feGEMClass.cxx:671-747 | when two connections bring the same bytes to the end, in whatever pieces, the same bytes stand in both buffers |
| SocketReader.SmallPiecesNeverArrive | src/feGEMClass.cxx:680 | in pieces below 88 bytes nothing ever gets through |
| SocketReader.AllArrivedYetTimedOut | src/feGEMClass.cxx:680-694 | 50 and 60 bytes: all 110 have arrived and the loop still times out |
| SocketReader.ShortMessagesNeverArrive | src/feGEMClass.cxx:674-680 | nor does a message below 88 bytes, such as an array without banks |
| SocketReader.DeclaredExactIff | src/feGEMClass.cxx:710-714 | the size read from an array is its size if and only if it is below 2^31 |
| SocketReader.DeclaredBankExactIff | src/feGEMClass.cxx:715-719 | the same for a bank |
| FileHeader.ReadHeader | libGEM/src/feGEM_module.cxx:218-238 | the scan of at most ten items, inside the data |
| FileHeader.HeaderReadsBack | libGEM/src/feGEM_module.cxx:222-238 | name, path and checksum of a header come back, whatever the file holds |
| Analyzer.feGEMModuleWriter.FindOrCreateTree | libGEM/src/feGEM_module.cxx:97-144 | the first tree of that name, or a new last one with its branch; the two vectors stay parallel |
| Analyzer.feGEMModuleWriter.BranchTree | libGEM/src/feGEM_module.cxx:38-60 | one row for each entry, appended in order |
| Analyzer.feGEMModuleWriter.BranchTreeFromFile | libGEM/src/feGEM_module.cxx:61-95 | the single row of a file; the assertion on the number of entries holds |
| Analyzer.feGEMModuleWriter.SaveToTree | libGEM/src/feGEM_module.cxx:166-252 | the trees after one bank of each type; an unknown type changes nothing |
| Analyzer.feGEMModuleWriter.AnalyzeFlowEvent | libGEM/src/feGEM_module.cxx:312-330 | the walk saves every bank of the array, finds them at the offsets their sizes give and ends at the end of the array |
| AnalyzerRuns.SaveAllIsFillAll | libGEM/src/feGEM_module.cxx:166-252 | saving banks is filling trees with what the banks of known type bring: a name, a branch and one row for each entry |
| AnalyzerRuns.TreesPartition | libGEM/src/feGEM_module.cxx:97-214 | over every run, for every name: the tree of that name holds exactly the rows brought under that name in order of arrival, with the branch of the first of them |
| AnalyzerRuns.TreesAreNamed | libGEM/src/feGEM_module.cxx:99-143 | there is one tree for each name that arrived, in order of first arrival |
| AnalyzerRuns.EachTree | libGEM/src/feGEM_module.cxx:97-214 | tree by tree: names differ, vectors are parallel, rows are those of the name |
| AnalyzerRuns.EveryArrivalHasATree | libGEM/src/feGEM_module.cxx:97-144 | nothing that arrives is without a tree |
| AnalyzerRuns.RowsAreConserved | libGEM/src/feGEM_module.cxx:45-58 | over every run, from any trees, as many rows are added as are brought |
| AnalyzerRuns.EntriesAreConserved | libGEM/src/feGEM_module.cxx:45-58 | and as many as the banks of known type have entries |
| AnalyzerRuns.RunsCompose | libGEM/src/feGEM_module.cxx:312-338 | events one after the other are their banks at once |
| AnalyzerRuns.BranchFitsIff | libGEM/src/feGEM_module.cxx:113-142 | the branch of a tree fits everything stored in it if and only if its name always carried one type |
| AnalyzerRuns.FileBranchIff | libGEM/src/feGEM_module.cxx:113-118 | the file branch is used exactly for files |
| Pipeline.Forward | src/feGEMClass.cxx:750-771 | both walks visit exactly the banks of the array, in order, at equal offsets, the second ending at the end of the array; every entry is counted; the trees receive the banks as sent; only equipment fields of THISHOST banks change |
| Pipeline.SendEvent | src/feGEMClass.cxx:770-771 | the analyzer walks a copy of the first BankSize bytes |
| Pipeline.ServeHost | src/feGEMClass.cxx:670-771 | the same from the socket on, for every way the bytes are split; a message that does not arrive changes neither walker, and an array over the event size is refused and sent on as it came, but only after the body loop has read all of it, which takes a buffer larger than the event size |
| PipelineRuns.RowsOfOneMessage | src/feGEMClass.cxx:670-771 | a message that arrives adds as many rows to the trees as its banks have entries |
| PipelineRuns.RowsOfAllMessages | src/feGEMClass.cxx:573-582 | over every run of connections the trees gain exactly the entries of the messages that arrive |
| Packing.PackedBank | libGEM/include/GEM_BANK.h:223-232 | a bank of numbers written from a closed title and its entries is accepted by both walks, which find these entries in it |
| Packing.PackedArray | libGEM/include/GEM_BANK.h:359-375 | any list of such banks makes an array both walks accept |
| Pipeline.EquipmentChanged | src/HistoryLogger.cxx:138-144 | no byte of the buffer changes outside such fields |
| Pipeline.SentRows | libGEM/src/feGEM_module.cxx:45-58 | the rows stored are the entries received |
| HostTrees.HostTree | libGEM/include/GEM_BANK.h:202-208 | a renamed THISHOST bank goes to the tree of its host |
| HostTrees.GoesToHostTreeIff | src/HistoryLogger.cxx:100-107 | a THISHOST bank goes to the tree of its host if and only if its variable has a period or the client has filled in that name itself; without a period it is sent as it came |
| HostTrees.PeriodIsTheFirst | src/HistoryLogger.cxx:96-101 | over every run the period of a variable is the one the first bank of its name asked for |
| HostTrees.HostTreeOverRunIff | src/HistoryLogger.cxx:90-144 | both together, over every run of banks |
| HostTrees.HostsShareATreeIff | libGEM/include/GEM_BANK.h:202-208 | two hosts share a tree if and only if their filtered names and the variable agree |
| HostTrees.ThisHostTestsAgreeIff | libGEM/include/GEM_BANK.h:204 | the analyzer recognises a bank the front end renames if and only if the first eight raw characters are all kept |
| HostTrees.ThisHostTestsCanDisagree | src/HistoryLogger.cxx:105 | "THIS HOST" is renamed by the one and not recognised by the other |
| ClientBytes.StampReads | libGEM/include/GEM_BANK.h:141-147 | every number of seconds that 64 bits can hold, counted from 1904 and written byte by byte in either order, is read back as seconds since 1970 |
| ClientBytes.Put16IsLittle | libGEM/include/GEM_BANK.h:227-230 | the numbers of a header are two bytes, low byte first |
| ClientBytes.Put32IsLittle | libGEM/include/GEM_BANK.h:231-232 | or four |
| ClientBytes.NameReads | libGEM/src/test.cxx:43-51 | a name of letters, digits, underscores and minuses that fits its field is read as it is |
| ClientBytes.OtherCharactersAreDropped | libGEM/src/test.cxx:53-57 | any other character in it is dropped |
| ClientBytes.WordIsKept | libGEM/include/GEM_BANK.h:180 | those are the characters kept, by their codes |
| ClientBytes.PacketReads | libGEM/src/test.cxx:12-84 | a bank packed from names, numbers and samples, byte by byte, is read back with these names, numbers and samples |
| ClientBytes.LastSampleReads | libGEM/src/test.cxx:87-92 | the last entry is the last sample, and its time the time stamped on it |
| ClientBanks.KindByTag | src/feGEMClass.cxx:472-525 | for every tag of four bytes, by its characters: which type it is, and that it is unknown if and only if it is none of these |
| ClientBanks.StringRouteByTitle | src/feGEMClass.cxx:313-374 | for every text bank, by the characters of category and name: commands, talk, client information, elog, saving, loading and listing settings, or the history |
| ClientBanks.RouteByTitle | src/feGEMClass.cxx:472-527 | string arrays, files, texts, and everything else to the history |
| ClientBanks.AtoiReads | src/feGEMClass.cxx:240 | the number a client prints is the number read |
| ClientBanks.AtoiReadsText | src/feGEMClass.cxx:240 | it is read behind spaces and a plus, and up to the first other character |
| ClientBanks.SetEventSize | src/feGEMClass.cxx:236-251 | a SET_EVENT_SIZE bank with the texts of any numbers leaves the largest of them, of 10000 and of the size before; nothing else changes |
| ClientBanks.RefusedIff | src/feGEMClass.cxx:555-573 | a packet is refused if and only if header and one sample exceed the event size; otherwise it counts its samples |
| ClientBanks.OtherCommands | src/feGEMClass.cxx:177-190 | the two debug commands set the mode; every other command to a worker leaves the settings as they are |
| ClientBanks.HistoryOfPackets | src/HistoryLogger.cxx:96-162 | over every run of packets the history of a name is the throttle of the times stamped on their last samples, with the period the first packet of that name asks for: spaced, as intended if and only if in reach, and then optimal |
| ClientBanks.FirstPacketWrites | src/HistoryLogger.cxx:145-162 | the first packet of a name is written if and only if its time has reached the period, with the bytes of its last sample |
| ClientBanks.NoPeriodNoHistory | src/HistoryLogger.cxx:96-101 | with period zero nothing is written; 65535 asks for the default |
| ClientBanks.ThisHostIsNamed | src/HistoryLogger.cxx:135-144 | a THISHOST packet gets the first 31 characters of the host into its equipment field, with a terminator; every other packet stays as it came |
| ClientTrees.DataPacketArrives | libGEM/src/feGEM_module.cxx:166-217 | a packet of numbers or texts brings one row for each sample to the tree of its names, under the branch of its type, for each tag by name |
| ClientTrees.TreesOfPackets | libGEM/src/feGEM_module.cxx:97-217 | over every run of packets the tree of a name holds exactly the samples sent under it, in order, under the branch of the type of its first packet |
| ClientTrees.FilePacketArrives | libGEM/src/feGEM_module.cxx:209-245 | a file packet brings one row with name, path and checksum to a tree of its own |
| ClientTrees.OtherPacketIsIgnored | libGEM/src/feGEM_module.cxx:246-250 | a packet of any other type leaves the trees as they are |
| Supervisor.feGEMSupervisor.FindHostInWorkerList | src/feGEMSupervisor.cxx:95-113 | the first place of the host, or a new last one |
| Supervisor.feGEMSupervisor.AssignPortForWorker | src/feGEMSupervisor.cxx:115-130 | the listed port, or fPort + ID + 1 in 16 bits with the gap before it filled with zeros |
| Supervisor.feGEMSupervisor.WorkerIsRunning | include/feGEMSupervisor.h:22-34 | true if and only if the worker has been started |
| Supervisor.feGEMSupervisor.WorkerStarted | include/feGEMSupervisor.h:35 | appends the worker |
| Supervisor.feGEMSupervisor.AddNewClient | src/feGEMSupervisor.cxx:150-185 | registers the host; a worker not yet running is started on the port listed, and stops the process if that is zero |
| Supervisor.feGEMSupervisor.GiveMePort | src/feGEMClass.cxx:137-148 | registers the host and tells its port |
| Supervisor.feGEMSupervisor.BuildFrontendName | src/feGEMSupervisor.cxx:132-149 | the prefixed name, cut to 27 characters |
| Supervisor.FrontendNameIs | src/feGEMSupervisor.cxx:132-149 | the name is "feGEM_" and the first 21 characters of the host |
| Supervisor.SharedEquipmentIff | src/feGEMSupervisor.cxx:132-149 | two hosts log to the same equipment if and only if their first 21 characters agree |
| SupervisorRuns.HostsAndPortsAreKept | src/feGEMSupervisor.cxx:95-130 | over every run, restarts included, a host keeps its place, its worker number and its port |
| SupervisorRuns.OnePortPerHost | src/feGEMClass.cxx:137-148 | the port a client is told is the port its worker binds, and never changes |
| SupervisorRuns.PortByPlace | src/feGEMSupervisor.cxx:115-130 | over every run, whatever a host other than local_host is told or its worker binds is fPort + place + 1 in 16 bits |
| SupervisorRuns.PortOfLocalHost | src/feGEMSupervisor.cxx:115-130 | the same for local_host, at place zero, when it asks first |
| SupervisorRuns.PlacesByFirstAsked | src/feGEMSupervisor.cxx:95-113 | behind local_host the hosts have their places in the order in which they first asked |
| SupervisorRuns.AskedIsAnswered | src/feGEMClass.cxx:137-148 | while the process is alive every host that asks is told a port, and one whose worker is not running gets it started |
| SupervisorRuns.FirstPort | src/feGEMSupervisor.cxx:115-130 | an example: with port 12345 the first client is told 12347 |
| SupervisorRuns.PortsDistinctIff | src/feGEMSupervisor.cxx:120-124 | the ports of all hosts but local_host differ if and only if no more than 65536 of them have registered |
| SupervisorRuns.DifferentHostsDifferentPorts | src/feGEMSupervisor.cxx:115-130 | until then two hosts are never told the same port |
| SupervisorRuns.NoWorkerStartedTwice | src/feGEMSupervisor.cxx:157-159 | between restarts no worker number is started twice, whatever happened before |
| SupervisorRuns.LocalHostPortIff | src/feGEMSupervisor.cxx:95-128 | local_host has a port of its own if and only if it is the first to ask; otherwise its port is zero for good |
| SupervisorRuns.LocalHostStopsTheSupervisor | src/feGEMWorker.cxx:92 | then a request to start its worker stops the process |
| SupervisorRuns.PortIsZeroIff | src/feGEMSupervisor.cxx:115-130 | over every run the port of a place is zero if and only if its number wraps around to it, or it is local_host and another host asked first |
| SupervisorRuns.StoppedIff | src/feGEMWorker.cxx:92 | over every run, restarts included, the process has stopped if and only if a worker started since the last restart has such a place |
| SupervisorRuns.SupervisorsPortIff | src/feGEMSupervisor.cxx:120-124 | a worker is given the port of the supervisor itself if and only if its number is one short of a multiple of 65536 |

## Left out

- Sockets, accepting connections, threads, sleeping and process exit: a socket is its bytes and the sizes of the pieces in which they arrive; threads appear in `ConcurrentAdmission` only.
- A read that returns an error: the loops would move the position back by one; pieces are non-negative.
- SocketReader.TcpSocket.ReadMessage: a message for which the memory behind the bank pointer has no room is outside the contract; `StaysInsideIff` says which those are, `EventBufferHoldsIff` which they are in the event buffer of the source, and `Packing.FullArrayEndsOutside` gives one.
- Pipeline.ServeHost: likewise; with the event buffer of the source that leaves the arrays that fit behind its headers.
- ODB, MIDAS, ROOT and the filesystem: arrays that grow with blanks or zeros, an output sequence, sequences of rows, and a map from project and entry name to bytes. The 64-character limit of ODB strings and special directory names are not modelled.
- HostAdmission.AllowedHosts.IsListedAsQuestionable: the source goes on using a list element after removing it; the model decides from a copy taken before. Time is a real number of milliseconds and one call sees one time.
- HostAdmission.AllowedHosts.AddHost: the budget theorems of `ConcurrentAdmission` take the push and the unlocked write as one step, as they do not look at the ODB; `OdbStaysCopiedIff` takes them apart.
- The testing-mode list `virtual_allowed_hosts`, which nothing uses.
- SettingsStore.SettingsFileDatabase.LoadSettingsFile: an empty listing, for which the source indexes before the first element, and an entry named exactly like the file are outside the contract.
- SettingsStore.SettingsFileDatabase.SaveSettingsFile: the checksum is an arbitrary function of the bytes; the length passed to it is negative when the frame has no contents, which is not modelled, and so is the comparison with the checksum sent along, which is only printed. Two saves of one file in the same second overwrite each other, as in the source.
- The listing of a settings directory is ordered character by character; `alphasort` orders by the collation of the locale.
- ListSettingsFile, which is empty.
- Json.ObjectParses: the reader is for objects and strings; numbers, arrays and escaped surrogates, which the printers never write, are refused.
- Replies.EverythingIsDeliveredOnce: only clean items are queued; `ReplyReadsBackIff` says that a reply with any other item, an object without fields among them, does not read back.
- MessageHandler: the reserved sizes and the destructor's warnings; the error texts and the debug-mode messages of the walk, which contain names from the bank.
- FrontEnd.FeGem.HandleBank: the error text queued for a bank over the event size.
- FrontEnd.FeGem.HandleBankArray: the error text queued for an array over the event size. Banks of unknown type, which end the process, supervisor commands sent to a worker, which fail an assertion, and command texts without a terminator inside their entry are outside the contract; so are names that fill their field with a character that is dropped, for which the source reads into the next field. A data bank has at least one entry, as reading its last entry demands.
- FrontEnd.FeGem.HandleCommandBank: the event size written to the ODB; a number too large for an int in SET_EVENT_SIZE; the commands that only answer, start a host registration or belong to the supervisor act on other parts and not on the walk.
- FrontEnd.FeGem.LogBank: what the talk, client information, elog, settings and file handlers do with the bank is modelled only for settings files and string arrays, each on its own.
- StringArray.HandleStrArrayBank: a last string without terminator is taken to end with its entry; the source reads on.
- HistoryLogger.HistoryLogger.AddNewVariable: the names and dates kept in feVariables and DateAdded, and the announcement text.
- HistoryLogger: the CPUMEM plot.
- BankNames.SanitiseBankString: the scratch buffer has one cell more than assert_size; the source's can be shorter than the index it terminates. Only the ASCII letters and digits are kept.
- HistoryLogger.HistoryVariable.constructor: the host name is the first 31 characters of the C string, where the source always copies 31 bytes. A last update never set is an absent value.
- Analyzer.feGEMModuleWriter.SaveToTree: a row keeps the bytes of the entry and the byte orders; its fractions of a second, run time and run number, and what ROOT does with a branch of another type, are not modelled. A file header that leaves its entry is outside the contract.
- A single bank sent without an array: `FrontEnd.FeGem.HandleBank` and `Analyzer.feGEMModuleWriter.SaveToTree` cover it, the theorems of `Pipeline` are about arrays.
- Supervisor.feGEMSupervisor.AddNewClient: building the equipment and binding the socket; the configured port range, which the source reads and never uses.
- PeriodicityManager, PostElog, status strings, colours, usage and argument parsing: easy or formatting.
