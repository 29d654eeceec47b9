# Decision logic of the OpenCloud scanner and plugin

A Dafny model of what the scanner and the monitoring plugin decide, with proofs of what those decisions must never get wrong. Nothing here reads a network or a file: bytes, documents, clocks and settings are given. `dafny verify dfyconfig.toml` covers the whole project.

| module | what it models |
|---|---|
| `Dns`, `Wire`, `Strict`, `Query` | DNS messages as bytes: the cursor-moving reader, an independent grammar with its printer, what RFC 1035 allows of it, and the one query the program prints itself |
| `Dnssec`, `Caa` | the two verdicts drawn from DNS responses and the loops over resolvers |
| `Versions`, `AdvisoryRanges` | version order, and the ranges a repository advisory's bounds stand for |
| `AdvisoryMerge`, `AdvisoryAliases` | the merge of fetched advisories into the database, and the choice among records of one issue |
| `Coverage` | the recorder of what a scan looked at, and the counts taken from it |
| `Baseline` | the snapshot of a run, its comparison with the stored one, and whole histories of runs |
| `Verdict` | the stages that turn a scan into a Nagios state, the policy, and the overall state of many hosts |
| `Changes` | the second, independent account of what changed between two documents |
| `Fleet`, `FleetWaivers`, `FleetDeadlines`, `FleetSummary` | the summary of many hosts: newest reports, waiver deadlines, inverted indexes, headline |
| `Fingerprint` | configuration digests and what may be said from them |
| `Findings` | the comparison of two documents with severities, and its totals |
| `Config`, `Prometheus` | list settings and label values, written and read back |
| `Documents`, `Severities`, `Text`, `Sorting`, `Wrappers` | shared values: documents, severities, string functions, stable sorting, optional values |

Each loop or updated object of the source is a method or a class here, proved against a function; the theorems are about those functions, and state what each decides on the fields of its inputs too. Histories are sequences of runs of any length.

## Where the code departs from its own documentation

The model follows the code. In each case a lemma gives an input on which the stated promise fails, and where it is a promise about all inputs another says exactly when it holds.

- A range without a lower bound starts at 1.0.0 "so that a version older than anything OpenCloud shipped stays outside every advisory" (`opencloud_local_scan/advisory_source.py:64-67`). With several upper bounds and a fix below 1.0.0 among them it need not: `AdvisoryRanges.OldFixesReachBelowTheFirstRelease`, `AdvisoryRanges.FirstReleasePromiseIff`.
- A release past its end of life is never silenced (`opencloud_local_scan/baseline.py:200-219`). Rating 0 is announced as end of life too, but without the EOL flag it can be silenced: `Verdict.LowestRatingCanBeSilenced`, `Verdict.LowestRatingSilencedIff`; with the flag it never is: `Verdict.EndOfLifeAlwaysCritical`.
- `dns.py` and `caa.py` promise that every malformed response is an unknown, never a finding (`opencloud_local_scan/dns.py:22-24`, `opencloud_local_scan/caa.py:60-66`). These are accepted, and the CAA check becomes a finding: a question section that is cut off with nothing counted behind it (`Caa.CutOffResponseBecomesAFinding`), a property cut off in its tag, which passes the check (`Caa.OverrunPropertyPasses`), a property of one byte (`Caa.RuntPropertyBecomesAFinding`), a reserved length byte in a name (`Caa.ReservedLengthBecomesAFinding`), a section behind the answers that is not there (`Caa.UnreadSectionBecomesAFinding`), and the program's own query sent back (`Caa.EchoedQueryBecomesAFinding`, and for DNSSEC `Dnssec.EchoedQueryFailsTheCheck`). `Caa.AcceptedThoughMalformedIff`, `Dnssec.AcceptedThoughMalformedIff` and `Dnssec.MalformedResponseSettlesIff` say exactly which malformed responses get through; `Caa.AcceptedExactly` and `Dnssec.AcceptedExactly` say what is read from each response accepted.
- With `--warn-on-new` a run reports its normal status as soon as anything is new or worse (`docs/baseline.md:41-42`). The first WARNING of an `--eol-warning` or `--waiver-warning` window, or of an update the document does not list, is news that no snapshot holds, so it is suppressed: `Verdict.WindowOpensInSilence`, `Verdict.LookedUpUpdateIsSilent`, `Verdict.UnrecordedWarningDeliveredIff`, `Verdict.UnrecordedAnnouncedIff`. And no rating compares as the worst one, so a first CRITICAL grade after a scan without a rating is suppressed: `Verdict.UnratedRunHidesTheNext`, `Verdict.LastLoudRunAnnouncesIff`. In every other case the silenced state was announced: `Verdict.SilencedRunWasAnnounced`.
- Records of one vulnerability are counted once, so that it does not weigh twice (`opencloud_local_scan/advisory_source.py:143-148`). Two that are linked only through a third, dropped one are both kept: `AdvisoryAliases.ChainIsCountedTwice`, `AdvisoryAliases.EachIssueCountedOnceIff`.
- Findings that are neither new nor worse are listed "each by severity" (`opencloud_local_scan/findings.py:278-280`). They are listed by whether they are still open first: `Findings.OpenLowPrecedesResolvedCritical`, `Findings.PromisedOrderIff`.
- Waived measures are visible to a policy "on purpose" (`check_opencloud_security.py:4280-4282`). Waived extra checks are not: `Verdict.WaivedCheckPassesThePolicy`, `Verdict.WaiverExcusesForbiddenIff`.
- A lost check keeps alerting "until it is measured again" (`opencloud_local_scan/baseline.py:85-90`). A run without a coverage block, or one that skips the check, ends the memory: `Baseline.SkippedRunEndsTheMemory`; `Baseline.MeasuredOverHistory` states exactly which runs keep it.
- A merge repeated with the same answer is expected to change nothing. For a hand-written entry that names no version the second merge replaces its open range: `AdvisoryMerge.OpenEntryRefreshedTwice`; `AdvisoryMerge.MergeTwiceIff` says for a whole database exactly when nothing changes, which covers the bundled entry without a version as long as no feed carries its id.
- The comparison of two documents and the baseline's comparison can name different checks when a check moved to another coverage group: `Changes.RegroupedCheckSplitsTheAccounts`, `Changes.AppearedAgreesIff`, `Changes.ResolvedAgreesIff`; and a coverage row without a name is lost to one of them only: `Changes.NamelessRowIsLostOnce`, `Changes.LostAgreesIff`.

## Modelling choices

- Bytes are numbers below 256; the bit masks of `dns.py` are written as division and remainder.
- Versions are the numbers between their dots; two spellings of the same numbers are one version. Python's tuple order, which sorts the fixes, and the zero-padded comparison are both modelled.
- Finding identifiers are a datatype (`Vuln`, `Hardening`, `Check`, `Update`) instead of strings with a prefix.
- Whether a finding is actionable and which category it belongs to are parameters, as they come from the hardening catalogue. SHA-256 is a parameter assumed free of collisions, whose values are never empty, never "none" and hold no colon.
- Times are seconds as integers; days are rounded down as a timedelta does.
- Text is ASCII as far as case and white space go.
- An exception is a `Failure` without its wording. A resolver's response is a value, absent when asking failed.
- An absent or empty string of a document is the empty string, so a coverage row whose id is there but empty is shown as "None" like one without an id, where `changes.py` would show nothing; entries of the wrong JSON type, which the source skips, do not occur.
- The read, compare and write of a baseline under its lock is one step.

## Model

| member | source | states |
|---|---|---|
| Dns.NameEnd | opencloud_local_scan/dns.py:206-222 | A name that can be stepped over, whatever the bytes are, starts inside the message and ends strictly past its start, at most one byte past the last byte (a compression pointer cut off by the end). |
| Dns.SkipName | opencloud_local_scan/dns.py:206-222 | The cursor loop terminates on arbitrary bytes, never indexes out of range and computes exactly the end of the name. |
| Dns.HeaderOf | opencloud_local_scan/dns.py:225-246 | A header is only handed out for at least twelve bytes, TC clear and response code 0. |
| Dns.QuestionsEnd | opencloud_local_scan/dns.py:249-254 | Each question takes at least five bytes, so the cursor moves by at least 5 per question. |
| Dns.SkipQuestions | opencloud_local_scan/dns.py:249-254 | The loop over the header's question count ends where the questions end, or fails with them. |
| Dns.RecordAt | opencloud_local_scan/dns.py:266-278 | A record that is read takes at least eleven bytes and ends inside the message. |
| Dns.ReadRecords | opencloud_local_scan/dns.py:257-279 | The loop returns exactly the records and the cursor of the section, or fails as a whole. |
| Dns.RecordsSplit | opencloud_local_scan/dns.py:257-279 | Reading m + n records is reading m and then n from the returned offset, failures included. |
| Dns.RecordsAreBounded | opencloud_local_scan/dns.py:257-279 | A successful read of n records from o ends at o + 11n or later and, for n > 0, inside the message, so no count field can yield more than len/11 records. |
| Wire.PrintedNameIsSkipped | opencloud_local_scan/dns.py:206-222 | A printed name, labels ended by a zero byte or by a compression pointer, is stepped over exactly, wherever it stands. |
| Wire.PrintedQuestionsAreSkipped | opencloud_local_scan/dns.py:249-254 | Printed questions are stepped over exactly. |
| Wire.PrintedRecordIsRead | opencloud_local_scan/dns.py:266-278 | A printed record reads back as its type, TTL and data and ends at its last byte. |
| Wire.PrintedRecordsAreRead | opencloud_local_scan/dns.py:257-279 | A printed section reads back record by record, in order. |
| Wire.MessageRoundTrip | opencloud_local_scan/dns.py:225-279 | Every message of the reader's grammar (TC clear, code 0, labels of up to 191 bytes) reads back through header, questions and the three sections as exactly its own records in order, ending at its last byte. |
| Wire.SkippedNameWasPrinted | opencloud_local_scan/dns.py:206-222 | Every name the reader steps over inside the message is the print of some name. |
| Wire.ReadRecordWasPrinted | opencloud_local_scan/dns.py:266-278 | Every record the reader accepts is the print of some record. |
| Wire.ReadRecordsWerePrinted | opencloud_local_scan/dns.py:257-279 | Every run of records the reader accepts, from any offset, is the print of that many records; from beyond the last byte it accepts none. |
| Wire.ReaderAcceptsExactlyThePrinted | opencloud_local_scan/dns.py:257-279 | From any offset, reading n records yields these records up to this offset if and only if the bytes there are the print of n records that look like them, or nothing is asked for beyond the last byte. |
| Wire.SkippedQuestionsWerePrinted | opencloud_local_scan/dns.py:249-254 | Every question section that ends inside the message is the print of that many questions. |
| Wire.LeadingMessageIsRead | opencloud_local_scan/dns.py:225-279 | The round trip holds with anything after the message: the reader stops where the message ends. |
| Wire.ReadMessageWasPrinted | opencloud_local_scan/dns.py:225-279 | Whatever can be read through header, questions and all sections, with its questions all there, begins with the print of a message of the reader's grammar. |
| Strict.MalformedIff | opencloud_local_scan/dns.py:206-279 | A byte string is a response to the letter of RFC 1035 (marked as one; labels of 1 to 63 octets, names of at most 255, pointers that point back; ending with its last record) if and only if a walk over its bytes finds every length, pointer and end in order. |
| Strict.NameSoundIff | opencloud_local_scan/dns.py:206-222 | For a name standing anywhere: the walk finds no reserved length byte, no more than 255 octets and no pointer forward iff the name printed there has none. |
| Strict.LeadingMessageIsSoundIff | opencloud_local_scan/dns.py:225-279 | A printed message is read to its end as its own records, and the walk finds its names sound iff each is one RFC 1035 allows where it stands. |
| Query.TrailingDotsAreEmptyLabels | opencloud_local_scan/dns.py:157-159 | Stripping trailing dots before splitting changes nothing, because empty labels are dropped anyway. |
| Query.EncodingFailsIff | opencloud_local_scan/dns.py:157-164 | Encoding a hostname fails if and only if something between two of its dots is not ASCII or longer than 63 characters. |
| Query.EncodeName | opencloud_local_scan/dns.py:154-166 | The byte loop fails on the first label that does not fit and otherwise prints the name of the non-empty labels, ended by a zero byte. |
| Query.BuildQuery | opencloud_local_scan/dns.py:169-192 | The query is the print of the one-question message, or a failure exactly when the hostname has an unencodable label. |
| Query.QueryParts | opencloud_local_scan/dns.py:181-192 | Part by part the printed message is what the builder concatenates, down to the counts. |
| Query.OptRecordPrints | opencloud_local_scan/dns.py:195-203 | The eleven OPT bytes are the print of an RFC 6891 section 6.1.2 record with the DO bit. |
| Query.QueryRoundTrip | opencloud_local_scan/dns.py:169-203 | A built query reads back as one question holding the hostname's non-empty labels, no answers, and with DNSSEC asked for exactly one OPT record whose DO bit is set; nothing is left over. |
| Query.SignaturesAreAnAddition | opencloud_local_scan/dns.py:175-187 | Asking for signatures changes one count byte and appends the record; every other byte is the plain query's. |
| Query.QueryIsStrictIff | opencloud_local_scan/dns.py:154-192 | A built query is to the letter of RFC 1035 if and only if the labels of the hostname take fewer than 255 octets, which nothing checks. |
| Query.QueryIsNoResponse | opencloud_local_scan/dns.py:169-192 | What is built is not marked as a response, so sent back it is a malformed one. |
| Dnssec.ParseDnssecResponse | opencloud_local_scan/dnssec.py:58-84 | The verdict of a raw response, or a failure, threading the cursor through the sections. |
| Dnssec.PrintedVerdict | opencloud_local_scan/dnssec.py:65-84 | On every message the reader accepts: validated is the AD bit, signed is an RRSIG in answer or authority and nowhere else, aware is a DO echo in the additional section and nowhere else. |
| Dnssec.AcceptedExactly | opencloud_local_scan/dnssec.py:71-84 | For every byte string: it is accepted with this verdict iff it begins with the print of a message of the reader's grammar that says so, or its question section is cut off and all three counts behind it are 0. |
| Dnssec.CutOffSettlesNothing | opencloud_local_scan/dnssec.py:126-131 | A response whose question section is cut off never settles the question. |
| Dnssec.AcceptedThoughMalformedIff | opencloud_local_scan/dnssec.py:58-84 | Of the responses accepted, exactly those are malformed whose questions are cut off, that are not marked as a response, that have an unsound name, or that go on behind their last record. |
| Dnssec.MalformedResponseSettlesIff | opencloud_local_scan/dnssec.py:106-149 | Of the responses that decide the finding, exactly those are malformed that are not marked as a response, have an unsound name, or go on behind their last record. |
| Dnssec.EchoedQueryFailsTheCheck | opencloud_local_scan/dnssec.py:126-149 | Counterexample to the promise that a malformed response is never a finding: for every hostname, the query itself sent back reads as an unsigned zone. |
| Dnssec.CheckDnssec | opencloud_local_scan/dnssec.py:87-149 | The check is unknown exactly for an address literal or when no response settles the question; otherwise the first response that settles it decides. |
| Dnssec.UnawareResolverSettlesNothing | opencloud_local_scan/dnssec.py:126-131 | A resolver that does not echo DO settles nothing, whatever else its answer says. |
| Caa.ParseCaaResponse | opencloud_local_scan/caa.py:60-81 | The properties of a raw response, or a failure. |
| Caa.PropertyRoundTrip | opencloud_local_scan/caa.py:72-80 | A property laid out as RFC 8659 section 4.1 says parses back into its folded tag and its value. |
| Caa.CaaOfIff | opencloud_local_scan/caa.py:72-80 | A record parses to this tag and value if and only if its data is laid out as RFC 8659 section 4.1 says with them, or its tag length runs past the end and all that is there is taken for the tag. |
| Caa.BrokenPropertyIff | opencloud_local_scan/caa.py:72-80 | The data of a CAA record is no property of RFC 8659 section 4.1 iff it is shorter than two bytes, its tag length is 0 or runs past the end, or its tag holds anything but ASCII letters and digits. |
| Caa.FoldSpells | opencloud_local_scan/caa.py:48-52 | The folded tag equals a lower-case word if and only if the bytes spell it in some mixture of cases. |
| Caa.FoldMeans | opencloud_local_scan/caa.py:75-79 | Capitals become small letters, anything beyond ASCII the replacement character, the rest of the tag stays. |
| Caa.PrintedRestriction | opencloud_local_scan/caa.py:68-81 | The finding passes on a message of the reader's grammar if and only if some answer record is a property named issue or issuewild, in any case, or breaks off inside such a name. |
| Caa.StrictRestriction | opencloud_local_scan/caa.py:68-81 | When every CAA record is to the letter, the finding passes if and only if some answer record is a property named issue or issuewild, in any case. |
| Caa.AcceptedExactly | opencloud_local_scan/caa.py:68-81 | For every byte string: it is accepted with these properties iff a passing header is followed by the prints of its questions and of answers carrying them, or its question section is cut off and it announces no answers. |
| Caa.CutOffResponseBecomesAFinding | opencloud_local_scan/caa.py:60-69 | Counterexample to the promise that a malformed response is never a finding: thirteen bytes that begin no message of the reader's grammar are read as a zone without CAA records. |
| Caa.AcceptedThoughMalformedIff | opencloud_local_scan/caa.py:60-81 | Of the responses accepted, each of which becomes a finding, exactly those are malformed whose questions are cut off, that are not marked as a response, whose records cannot all be read, that have an unsound name or a broken property, or that go on behind their last record. |
| Caa.OverrunPropertyPasses | opencloud_local_scan/caa.py:75-80 | Counterexample: a property cut off in the middle of its tag makes the check pass. |
| Caa.RuntPropertyBecomesAFinding | opencloud_local_scan/caa.py:73-74 | Counterexample: a property of one byte is dropped, and the zone reported without CAA records. |
| Caa.ReservedLengthBecomesAFinding | opencloud_local_scan/dns.py:216-222 | Counterexample: a question whose name begins with the reserved length byte 0x40 is stepped over, and the zone reported without CAA records. |
| Caa.UnreadSectionBecomesAFinding | opencloud_local_scan/caa.py:67-69 | Counterexample: an authority record announced and missing goes unnoticed, and the zone is reported without CAA records. |
| Caa.EchoedQueryBecomesAFinding | opencloud_local_scan/caa.py:60-69 | Counterexample: for every hostname, the query itself sent back reads as a zone without CAA records. |
| Caa.CheckCaaRecord | opencloud_local_scan/caa.py:84-144 | The check is unknown exactly for an address literal or when no response parses; otherwise the first that parses decides. |
| Versions.TupleOrderRefines | opencloud_local_scan/versions.py:140-151 | Python's order on unpadded tuples never contradicts the zero-padded comparison. |
| Versions.NotBeforeTransitive | opencloud_local_scan/versions.py:140-151 | The padded comparison is a weak order: not being earlier is transitive. |
| Versions.BeforeIff | opencloud_local_scan/versions.py:140-151 | One version is earlier iff at the first part that differs, missing parts read as zero, it has the smaller number. |
| Versions.BeforeByLine | opencloud_local_scan/versions.py:182-191 | A version on an earlier release line is earlier, and an earlier version is on the same line or an earlier one. |
| AdvisoryRanges.RepositoryRanges | opencloud_local_scan/advisory_source.py:323-345 | The loops over tokenised bounds produce exactly the ranges of the expression, last bound per end winning. |
| AdvisoryRanges.AllUpperIff | opencloud_local_scan/advisory_source.py:323-324 | An expression is read line by line only if every bound is < or <=. |
| AdvisoryRanges.Fixes | opencloud_local_scan/advisory_source.py:327-328 | The fixes are the upper bounds of the expression, each once. |
| AdvisoryRanges.LineAfterMeans | opencloud_local_scan/advisory_source.py:301-304 | A version reaches the line after a fix if and only if it is on a later release line. |
| AdvisoryRanges.OlderThanTheFirstReleaseIff | opencloud_local_scan/advisory_source.py:64-67 | What is older than the first release 1.0.0 is exactly what has a 0 in front. |
| AdvisoryRanges.UpperBoundsMean | opencloud_local_scan/advisory_source.py:313-331 | For every all-upper-bound expression, a version is in the union of the ranges iff it is below some fix, is not at or above a fix on its own line, and is at least 1.0.0 or at least some fix. |
| AdvisoryRanges.ReleasedUpperBoundsMean | opencloud_local_scan/advisory_source.py:313-331 | With every fix at least 1.0.0: affected iff 1.0.0 or later, below the largest fix, and below every fix on the version's own line; so no fixed release and no later patch on its line is reported. |
| AdvisoryRanges.RangesAreDisjoint | opencloud_local_scan/advisory_source.py:326-331 | The ranges come out ordered, every version of one below every version of the next, so no version is in two. |
| AdvisoryRanges.OldFixesReachBelowTheFirstRelease | opencloud_local_scan/advisory_source.py:64-67 | Counterexample to the promise that nothing below 1.0.0 is ever affected: "< 0.5.0, < 0.9.0" reports 0.7.0. |
| AdvisoryRanges.FirstReleasePromiseIff | opencloud_local_scan/advisory_source.py:64-67 | That promise holds for an expression if and only if no fix below 1.0.0 leaves room between its line and the next larger fix. |
| AdvisoryRanges.IncrementedBound | opencloud_local_scan/advisory_source.py:292-298 | A version is below the incremented bound iff, cut to the parts the bound states, it is at most the bound: every 7.2.x satisfies <= 7.2. |
| AdvisoryRanges.ExtendedBound | opencloud_local_scan/advisory_source.py:337-342 | A version reaches the bound extended by ".1" iff, cut to one part more than the bound, it is above the bound. |
| AdvisoryRanges.SingleRangeMeans | opencloud_local_scan/advisory_source.py:330-345 | Any expression but several upper bounds is one range holding exactly the versions, of whatever length, that the last bound to state the lower end and the last to state the upper end admit, from 1.0.0 on when none says where to start. |
| AdvisoryMerge.Ranges | opencloud_local_scan/advisory_source.py:232-244 | What an entry is read as: never nothing, and either bounded ranges or the flat pair. |
| AdvisoryMerge.MergeRanges | opencloud_local_scan/advisory_source.py:247-255 | The membership loop keeps every range once, in order of first appearance. |
| AdvisoryMerge.MergeOne | opencloud_local_scan/advisory_source.py:211-223 | Field by field what one fetched entry makes of the stored one; the id stays. |
| AdvisoryMerge.RangeIsReadIff | opencloud_local_scan/advisory_source.py:232-244 | Every listed range with a version at either end is read, one without a fix yet included; the flat pair as it stands is read when no listed range names a version, and nothing else ever is. |
| AdvisoryMerge.MergedField | opencloud_local_scan/advisory_source.py:211-213 | After a merge a field other than the ranges holds what the fetched entry states, anything but None and the empty string, and else what was stored. |
| AdvisoryMerge.MergedFlatPair | opencloud_local_scan/advisory_source.py:214-222 | The flat pair becomes the first range of the stored entry; a list is written exactly when there are two different ranges, and holds those of both sides. |
| AdvisoryMerge.MergeDocument | opencloud_local_scan/advisory_source.py:188-229 | The loop with its id-to-index dictionary computes the left fold of the merge step. |
| AdvisoryMerge.MergeEntryAffects | opencloud_local_scan/advisory_source.py:232-255 | One merge affects exactly the union of the ranges the two sides affect, whatever shape they have. |
| AdvisoryMerge.MergeAffectsTheUnion | opencloud_local_scan/advisory_source.py:188-229 | For every database and feed, the ranges an id affects afterwards are exactly those it affected before plus those fetched for it. |
| AdvisoryMerge.AffectedVersionsAreTheUnion | opencloud_local_scan/advisory_source.py:191-197 | The same for versions: nothing affected is lost and nothing is invented, under any reading of a range. |
| AdvisoryMerge.RangesAfterMerge | opencloud_local_scan/advisory_source.py:188-255 | Range by range over the whole database: what names a version is read of a refreshed entry iff it was read of the stored entry or a fetched one with its id. |
| AdvisoryMerge.ListedRangeSurvives | opencloud_local_scan/advisory_source.py:194-255 | A range with a version at either end that any of them lists is read after the refresh. |
| AdvisoryMerge.LastStatedFieldIsTaken | opencloud_local_scan/advisory_source.py:204-223 | Over a whole feed, the last fetched entry to state a field decides it, at the place the stored entry always had. |
| AdvisoryMerge.MergeKeeps | opencloud_local_scan/advisory_source.py:194-197 | Every stored entry keeps its position, its id, and every field no fetched entry states. |
| AdvisoryMerge.MergeKeepsIdsUnique | opencloud_local_scan/advisory_source.py:201-223 | Ids stay unique if they were, and every fetched id is in the database afterwards. |
| AdvisoryMerge.FoldForm | opencloud_local_scan/advisory_source.py:211-223 | Any number of merges into any entry has a closed form: all stated fields, all ranges once, an open range of the stored entry surviving one merge only. |
| AdvisoryMerge.MergeTwiceIff | opencloud_local_scan/advisory_source.py:188-229 | For every database with unique ids and every feed whose entries name versions: merging the feed again leaves the advisories unchanged iff each stored entry has a bound or is fetched other than exactly once, and each entry new to the database is in merged shape or not the only one of its id. |
| AdvisoryMerge.FoldTwiceIff | opencloud_local_scan/advisory_source.py:211-223 | For one stored entry and any number of fetched ones the repeat changes nothing iff the stored entry names a version or there is not exactly one of them. |
| AdvisoryMerge.FoldNewTwiceIff | opencloud_local_scan/advisory_source.py:206-223 | The same for entries of an id the database did not have. |
| AdvisoryMerge.OpenEntryRefreshedTwice | opencloud_local_scan/advisory_source.py:211-223 | Counterexample: an entry that names no version, refreshed twice with one that does, is changed again by the second refresh. |
| AdvisoryMerge.NativeReadsBack | opencloud_local_scan/advisory_source.py:165-185 | An entry written for an advisory reads back as the advisory's ranges, in order. |
| AdvisoryMerge.NativeIsStableIff | opencloud_local_scan/advisory_source.py:165-185 | Such an entry is already in merged shape if and only if the advisory lists no range twice. |
| AdvisoryAliases.WithoutAliases | opencloud_local_scan/advisory_source.py:140-162 | The loop with its set of seen names keeps exactly the records that share no name with an earlier kept one, in order of how much they say. |
| AdvisoryAliases.KeptDisjoint | opencloud_local_scan/advisory_source.py:143-148 | Kept records have pairwise disjoint names. |
| AdvisoryAliases.SharesIff | opencloud_local_scan/advisory_source.py:154-159 | Two records share a name iff they have one id, one names the other, or both name a third. |
| AdvisoryAliases.KeptStandsFor | opencloud_local_scan/advisory_source.py:151-161 | Every record read is kept or shares a name with a kept one that says at least as much. |
| AdvisoryAliases.KeptIsMaximalAndIndependent | opencloud_local_scan/advisory_source.py:140-162 | For every feed: a maximal choice of records naming no issue twice, each dropped one displaced by one with at least as many affected entries. |
| AdvisoryAliases.EachNameCountedOnce | opencloud_local_scan/advisory_source.py:143-148 | A name is carried by at most one kept record. |
| AdvisoryAliases.DroppedIff | opencloud_local_scan/advisory_source.py:154-161 | A record is dropped if and only if one kept before it shares a name with it. |
| AdvisoryAliases.EachIssueCountedOnceIff | opencloud_local_scan/advisory_source.py:143-161 | Records linked by chains of shared names are one vulnerability. Each keeps the record that says the most, and no other if and only if all its records share a name with that one. |
| AdvisoryAliases.ChainIsCountedTwice | opencloud_local_scan/advisory_source.py:154-161 | Counterexample: of three records in a chain the first and the last are both kept, since the names of the dropped one between them are forgotten. |
| Coverage.CoverageRecorder.Measured | opencloud_local_scan/coverage.py:143-145 | A measured check is recorded as passed or failed without a reason, unless already recorded. |
| Coverage.CoverageRecorder.Skipped | opencloud_local_scan/coverage.py:147-149 | A skip with a known reason is recorded unless already recorded; any other reason is refused and nothing changes. |
| Coverage.CoverageRecorder.Inconclusive | opencloud_local_scan/coverage.py:151-153 | The same for a check that ran and could not decide. |
| Coverage.CoverageRecorder.Add | opencloud_local_scan/coverage.py:155-159 | First write wins, and every entry stays valid and unique. |
| Coverage.FirstWriteWins | opencloud_local_scan/coverage.py:155-159 | Recording a check again, in whatever state, changes nothing. |
| Coverage.RowsListEntries | opencloud_local_scan/coverage.py:169-180 | The block lists each recorded check once, in group order, and nothing else. |
| Coverage.RowsStandInOrder | opencloud_local_scan/coverage.py:169-180 | Rows stand by group, and within a group by identifier. |
| Coverage.StateCounts | opencloud_local_scan/coverage.py:309-326 | The counting loop counts each state's rows. |
| Coverage.CountsAreSizes | opencloud_local_scan/coverage.py:243-276 | The plain counts by state, limited by the network or not, are how many rows there are in it. |
| Coverage.Summarise | opencloud_local_scan/coverage.py:243-276 | Each of the four numbers, with the network-limited rows split out of the two gaps. |
| Coverage.EveryRowCountedOnce | opencloud_local_scan/coverage.py:247-254 | For rows a recorder can write the four state counts add up to all rows, and no network-limited row is outside the two gaps: every check is in exactly one number. |
| Coverage.GroupsOf | opencloud_local_scan/coverage.py:199-218 | The considered checks are exactly the rows with an id. |
| Coverage.LastRowGivesTheGroup | opencloud_local_scan/coverage.py:214-218 | A check listed more than once is mapped to the group of its last row. |
| Coverage.EntryIsValidIff | opencloud_local_scan/coverage.py:108-119 | An entry can be made iff it is decided and gives no reason, or is undecided and gives one of the six. |
| Coverage.NetworkLimitedIff | opencloud_local_scan/coverage.py:260-276 | A row counts as limited by the network iff it is undecided for a timeout or a missing route. |
| Baseline.CoverageStates | opencloud_local_scan/baseline.py:639-661 | The loop collects exactly the measured checks and the inconclusive ones with their last reason; without a block it says nothing. |
| Baseline.TakeSnapshot | opencloud_local_scan/baseline.py:583-740 | The loops over advisories, measures and extra checks collect exactly the findings of the document, an update counted as one. |
| Baseline.FindingIsRecordedIff | opencloud_local_scan/baseline.py:583-740 | Finding by finding: an advisory under its id, else its CVE, else its title, else as unknown; a measure handed in, alertable and not waived; a check failing and not waived; and the version the listed update names, or unknown for an unnamed one. |
| Baseline.SnapshotRecords | opencloud_local_scan/baseline.py:639-740 | The rest of a snapshot: grade or -1, end of life, the checks decided, those undecided with their last reason, and the findings the groups of the last rows could report. |
| Baseline.NewUpdateIsNews | opencloud_local_scan/baseline.py:713-716 | A run that lists an update the stored findings do not hold must alert, whatever else was listed before. |
| Baseline.WaivingIsNeverNews | opencloud_local_scan/baseline.py:615-636 | On an unchanged instance a further waiver brings nothing new and takes away exactly the measures it waived and that alerted; lifting it brings exactly those back as news. |
| Baseline.Store.CompareAndRecord | opencloud_local_scan/baseline.py:452-509 | Compares with the stored snapshot of that host, then stores the copy that carries lost checks forward, touching no other host. |
| Baseline.ComparisonConserves | opencloud_local_scan/baseline.py:457-477 | New and newly measured split now minus before, resolved and no longer measured split before minus now, and applying the four sets to before yields now. |
| Baseline.ComparedFindingByFinding | opencloud_local_scan/baseline.py:457-477 | A finding that appeared is new, or newly measured iff both sides say what they looked at and only this one looked; the same for what went away. |
| Baseline.LostMeans | opencloud_local_scan/baseline.py:478-493 | A check is lost, with its reason, iff the stored run had measured it and this run lists its checks and could not decide it. |
| Baseline.RegressedIff | opencloud_local_scan/baseline.py:200-219 | A run must alert iff it is the first, past its end of life, graded lower, reports a finding that is not stored, or lost a check: said of the two snapshots alone. |
| Baseline.ComparisonIsDual | opencloud_local_scan/baseline.py:464-501 | Swapping the snapshots swaps new with resolved and newly with no longer measured. |
| Baseline.ConsideredNeverDecidesAlert | opencloud_local_scan/baseline.py:200-219 | Erasing what either side considered never changes whether a run alerts. |
| Baseline.NextKeepsTrack | opencloud_local_scan/baseline.py:478-493 | A check is stored as measurable after a run iff the run measured it, or found it inconclusive with a block while it was stored as measurable. |
| Baseline.MeasuredOverHistory | opencloud_local_scan/baseline.py:478-493 | Over every run history, from any stored state: a check is stored as measurable iff some run measured it (or the start had it) and every run since measured it or found it inconclusive. |
| Baseline.LossReportedEveryRun | opencloud_local_scan/baseline.py:484-493 | Run k reports a check as lost iff it found it inconclusive and it was known to be measurable: in every such run, not only the first. |
| Baseline.SkippedRunEndsTheMemory | opencloud_local_scan/baseline.py:85-90 | Counterexample to the promise that a lost check alerts until it is measured again: measured, skipped, inconclusive reports no loss. |
| Baseline.QuietRunsOnlyImprove | opencloud_local_scan/baseline.py:200-219 | Along any stretch of quiet runs the findings only shrink and the rating never falls. |
| Baseline.SilenceHidesNothing | opencloud_local_scan/baseline.py:200-219 | Every quiet run is preceded by a loud one since which findings only shrank and the rating never fell; it is not end of life and lost no coverage. |
| Baseline.HostsAreIndependent | opencloud_local_scan/baseline.py:448-509 | In any log of runs of many hosts each host is stored as if it had run alone. |
| Verdict.CheckVulnerabilities | check_opencloud_security.py:626-771 | All stages in order end in the specified state, and the store changes for this host only, when a baseline is set. |
| Verdict.StateOnFields | check_opencloud_security.py:645-751 | The state before the baseline on settings and document: UNKNOWN without a grade of 0 to 5, CRITICAL at end of life, grade 0 or the critical threshold, else WARNING for an advisory, the warning threshold, an alerting measure, an available update, support ending within the window or a waiver ending within it, else OK. |
| Verdict.LessTimeNeverQuietens | check_opencloud_security.py:957-1010 | Fewer days of support or of a waiver left never make the state better. |
| Verdict.RunFindingIff | check_opencloud_security.py:1084-1086 | What a run compares: measures absent, alertable and not waived when measures are checked at all, and the findings of the document. |
| Verdict.SilenceOnFields | check_opencloud_security.py:1088-1095 | A run may be silenced iff a baseline is set and only news alert, something is stored, the release is supported, the grade did not fall, nothing is reported that is not stored, and no check measured before is undecided. |
| Verdict.CriticalIff | check_opencloud_security.py:753-770 | The final state is CRITICAL iff the policy is violated, or the run is rated, at its end of life or at or below the threshold, and may not be silenced. |
| Verdict.FinalStateIs | check_opencloud_security.py:645-771 | All four final states, decided by policy, silencing, coverage loss and the state before the baseline. |
| Verdict.SuppressionLosesNoCoverage | check_opencloud_security.py:1089-1110 | A suppressed run lost no coverage, so suppression and the coverage raise never both fire. |
| Verdict.EndOfLifeAlwaysCritical | check_opencloud_security.py:2000-2014 | A rating of 0 to 5 with the EOL flag ends CRITICAL under every setting and every stored baseline. |
| Verdict.NeverBelowTheEvidence | check_opencloud_security.py:1089-1110 | A run that may not be silenced ends no lower than its evidence, and that no lower than its rating. |
| Verdict.LowestRatingSilencedIff | check_opencloud_security.py:2000-2014 | Rating 0 without the EOL flag is announced as end of life but falls silent exactly when policy, stored rating, stored findings and coverage allow it. |
| Verdict.LowestRatingCanBeSilenced | check_opencloud_security.py:1089-1095 | Such a run exists: the second of two identical scans graded 0 ends OK. |
| Verdict.LastLoudRunAnnouncesIff | check_opencloud_security.py:1083-1114 | Under one setting, for a silenced run raised by something a snapshot holds: the last run that could not be suppressed showed all its findings and no better a grade, and ended in its state or a worse one iff that run was rated or violated the policy. |
| Verdict.SilencedRunWasAnnounced | check_opencloud_security.py:1083-1114 | Under one setting and with rated runs, every run silenced against its own evidence follows one that ended in that state or a worse one with at least its findings, unless only something no snapshot holds raised it: an approaching end of life or end of a waiver, or an update the document does not list. |
| Verdict.UnrecordedAnnouncedIff | check_opencloud_security.py:970-1052 | The exception exactly: a silenced run that nothing a snapshot holds raised was announced iff some earlier unsuppressed run had something to alert on or lost coverage, or an earlier run violated the policy. |
| Verdict.UnrecordedWarningDeliveredIff | check_opencloud_security.py:1089-1110 | For one run: the WARNING of such a run is delivered iff the run need not be news only, or some finding is new, the grade fell or coverage was lost. |
| Verdict.WindowOpensInSilence | check_opencloud_security.py:970-997 | Counterexample: two clean scans, 40 and then 29 days before the end of life, both end OK under --warn-on-new --eol-warning 30. |
| Verdict.LookedUpUpdateIsSilent | check_opencloud_security.py:1140-1168 | Counterexample: an update found by asking the release source, for a document without an updates block, ends OK under --warn-on-new --update-warning. |
| Verdict.UnratedRunHidesTheNext | check_opencloud_security.py:1983-1998 | Counterexample: after a scan without a rating, which ends UNKNOWN, a first scan graded CRITICAL ends OK under --warn-on-new. |
| Verdict.ViolatedIff | check_opencloud_security.py:4294-4330 | A policy is violated iff the rating is below its minimum, a required measure is missing, or a forbidden finding is present. |
| Verdict.ViolationIff | check_opencloud_security.py:4294-4330 | Exactly these violations are reported: the minimum that the rating is below, each required measure that is absent, each forbidden id that is an absent measure, a failing check not waived, or an advisory. |
| Verdict.PolicyFailsIff | check_opencloud_security.py:4294-4345 | A run fails its policy iff one is set and its grade, or -1 without one, is below the minimum, a required measure is absent, or a forbidden finding is there. |
| Verdict.WaiverExcusesForbiddenIff | check_opencloud_security.py:4273-4291 | Exactly when a waiver makes a forbidden finding disappear from the policy's view, which the comment there says it never does: when the finding is present only as failing extra checks and all of them are waived. |
| Verdict.WaivedCheckPassesThePolicy | check_opencloud_security.py:4273-4291 | Counterexample: a policy forbids a finding that the instance shows and waived; it is met with the waiver and violated without. |
| Verdict.OverallState | check_opencloud_security.py:3404-3417 | Over many hosts the overall state is CRITICAL iff some host is, OK iff all are, UNKNOWN iff some host is and none is worse. |
| Changes.InstanceChanges | opencloud_local_scan/changes.py:260-285 | For every check: it is said to have started failing iff it fails now, did not before, and was not listed by the later scan alone; the converse for stopped; at most one change of each kind, in order, and none that names nothing. |
| Changes.ScannerChanges | opencloud_local_scan/changes.py:416-482 | For every check: what only one scan listed and whether it fails there, and what was measured before and whose last undecided row now gives which reason; at most one change of each kind, in order, and none that names nothing. |
| Changes.NewFailureIsAttributedOnce | opencloud_local_scan/changes.py:260-276 | A check that fails now and did not before is put down to the instance or to the scanner, never to both and never to neither. |
| Changes.AppearedAgreesIff | opencloud_local_scan/changes.py:264-276 | The two accounts of what newly fails, this module's and the baseline's, agree iff the coverage group of no such check makes the difference; of what is newly measured and failing, iff moreover no check failing on both sides is listed now only. |
| Changes.ResolvedAgreesIff | opencloud_local_scan/changes.py:264-284 | The same for what stopped failing. |
| Changes.LostAgreesIff | opencloud_local_scan/changes.py:500-515 | The two accounts of lost coverage agree, with the same reasons, on every check with a name, and altogether iff rows without a name make no difference. |
| Changes.NamelessRowIsLostOnce | opencloud_local_scan/changes.py:500-515 | Counterexample: a row without a name, measured and then undecided, is lost in this account alone. |
| Changes.RegroupedCheckSplitsTheAccounts | opencloud_local_scan/changes.py:485-497 | A concrete pair of documents on which the accounts differ: a check that moved to another group. |
| Fleet.Latest | opencloud_local_scan/fleet.py:232-244 | One report per host: none newer by (time, not failed), the earliest among equals, and kept plus superseded is read. |
| Fleet.KeptIff | opencloud_local_scan/fleet.py:232-244 | The report kept, on its fields: none of its host is later, none as late succeeded where it failed, and the first of equals is kept. |
| Fleet.Failing | opencloud_local_scan/fleet.py:315-379 | The three dictionary loops compute the failing findings of a report. |
| Fleet.FailingOnMeans | opencloud_local_scan/fleet.py:315-379 | An identifier is listed iff some actionable failing check, missing flag or advisory carries it. |
| Fleet.FailingEntryIff | opencloud_local_scan/fleet.py:315-379 | The table of a host entry by entry: an advisory is filed before a failing check of its name, that before an absent measure, that before an absent header; with the severity of the last entry, and waived by itself or by name, an advisory never. |
| Fleet.FlagsAreMissing | opencloud_local_scan/fleet.py:342-353 | The flags walked are exactly the measures and headers reported missing. |
| FleetWaivers.DeadlineIsTheEndOfSilence | opencloud_local_scan/fleet.py:397-403 | A moment is a check's deadline iff the check is covered and is suppressed exactly before that moment. |
| FleetWaivers.PermanentNeverEnds | opencloud_local_scan/fleet.py:421-423 | A check under a permanent record has no deadline. |
| FleetWaivers.Covering | opencloud_local_scan/fleet.py:409-418 | The nested loops file under each actionable check exactly the readable records that match it. |
| FleetWaivers.WaiverDeadlines | opencloud_local_scan/fleet.py:395-445 | Entries strictly increase in time; each holds exactly the checks whose last waiver ends then and exactly the waivers ending then, each once, that cover one of them. |
| FleetWaivers.EachCheckOnce | opencloud_local_scan/fleet.py:421-445 | A check is in an entry iff it is covered and by no permanent record, in one entry only, and that entry's moment is the earliest at which nothing covers it. |
| FleetWaivers.DeadlineOnFields | opencloud_local_scan/fleet.py:395-445 | An entry on the fields of the records: its checks, its whole days left, and expired from its own second on. |
| FleetWaivers.WaiversOnFields | opencloud_local_scan/fleet.py:427-436 | It shows the pattern and reason of exactly the records that end then and name one of its checks. |
| FleetSummary.AddReport | opencloud_local_scan/fleet.py:490-585 | One more host changes rows, grade counts, lists, findings and gaps to those of the longer list of reports. |
| FleetSummary.Summarise | opencloud_local_scan/fleet.py:473-591 | The host loop over the newest reports, in host order, yields the summary said report by report, and the waiver deadlines of all scanned hosts within the window in order. |
| FleetSummary.HostListsMean | opencloud_local_scan/fleet.py:284-286 | Which host is on which list, on the fields of its report: unsupported iff ended as recorded or by today's schedule, and the like for unknown, ending soon, failed, stale and without coverage. |
| FleetSummary.RowMeans | opencloud_local_scan/fleet.py:496-529 | Each row on the fields of its report: host, failure, usable grade, today's state, and the counts of waived and other findings and of gaps. |
| FleetSummary.RatingsMean | opencloud_local_scan/fleet.py:511-514 | Each number of the histogram is how many hosts have a scan that succeeded with that grade. |
| FleetSummary.IndexLine | opencloud_local_scan/fleet.py:552-575 | For every identifier, its line of the inverted index holds exactly its hits in order, its waived ones, and the worst severity any of them states. |
| FleetSummary.KindIsTheFirst | opencloud_local_scan/fleet.py:552-565 | A finding is filed under the kind it was first seen with. |
| FleetSummary.HostListedIff | opencloud_local_scan/fleet.py:552-568 | A host is listed under a finding iff that finding fails on it, and under its waivers iff it is waived there. |
| FleetSummary.HostsListedOnce | opencloud_local_scan/fleet.py:566-568 | With one report per host no host is listed twice under a finding. |
| FleetSummary.FindingCountsAddUp | opencloud_local_scan/fleet.py:523-525 | Finding counts sum to failing plus waived over all hosts, and waived listings to the hosts' waived. |
| FleetSummary.GapCountsAddUp | opencloud_local_scan/fleet.py:577-585 | Gap counts sum to the hosts' coverage gaps, and the reasons of each gap to its count. |
| FleetSummary.GapLine | opencloud_local_scan/fleet.py:577-585 | The line of a gap holds its hosts in order and how often each reason was given. |
| FleetSummary.GapMembers | opencloud_local_scan/fleet.py:448-454 | The gaps are those of the scans that succeeded and list their checks. |
| FleetSummary.OneRowIsAGapIff | opencloud_local_scan/fleet.py:448-454 | A row is a gap iff it names a check left open for a reason other than not applying; without a reason the state stands in. |
| FleetSummary.GradesAddUp | opencloud_local_scan/fleet.py:511-514 | Every scanned host with a usable grade is counted under exactly one grade. |
| FleetSummary.CommonFindings | opencloud_local_scan/fleet.py:593-602 | The findings of the index are listed each once, most hosts first, then by severity, then by identifier. |
| FleetSummary.CommonStandInOrder | opencloud_local_scan/fleet.py:593-602 | Any two lines: the one on more hosts first, then the worse severity, none counting as unknown, then the identifier. |
| FleetDeadlines.DueOn | opencloud_local_scan/fleet.py:547-549 | Of one host, exactly the checks whose last waiver ends within the window or has ended. |
| FleetDeadlines.UpcomingDeadlines | opencloud_local_scan/fleet.py:547-591 | Over all scanned hosts: a check of a host is shown under a moment iff its last waiver ends then and that is within the window; soonest first, then by host. |
| FleetDeadlines.DueOnFields | opencloud_local_scan/fleet.py:395-549 | What is listed, on the fields of reports and records: of scans that succeeded, the checks whose last waiver ends then, before the window is over. |
| FleetSummary.LifecycleListsAreDisjoint | opencloud_local_scan/fleet.py:531-545 | Unsupported, ending soon and unknown are pairwise disjoint, and a failed scan is in none of them. |
| FleetSummary.EveryHostIsAccountedFor | opencloud_local_scan/fleet.py:638-654 | Every host expected or heard of is either current or counted as not covered, once, however many of missing, failed and stale apply. |
| FleetSummary.HeadlineMeans | opencloud_local_scan/fleet.py:638-654 | The headline counts hosts heard of, hosts out of support, deadlines listed, and hosts expected in vain, failed or stale. |
| Fingerprint.Facts.Add | opencloud_local_scan/fingerprint.py:153-163 | A fact is appended normalised to its own group; a probe that did not run leaves nothing. |
| Fingerprint.SameFactIff | opencloud_local_scan/fingerprint.py:113-123 | Two texts are the same fact iff they hold the same words, spacing and case aside. |
| Fingerprint.FactIsItsWords | opencloud_local_scan/fingerprint.py:113-123 | A fact is its words in small letters, one blank apart. |
| Fingerprint.FlagIsItsWord | opencloud_local_scan/fingerprint.py:116-123 | A flag is the same fact as its word, in any case and spacing. |
| Fingerprint.DigestsAgreeIff | opencloud_local_scan/fingerprint.py:126-131 | Digests are equal iff the collected facts are, as multisets, whatever the order; and the marker "none" means no facts. |
| Fingerprint.ScopesAgreeIff | opencloud_local_scan/fingerprint.py:134-144 | Scopes are equal iff the same keys were looked at. |
| Fingerprint.OverallDigestMovesWithAnyGroup | opencloud_local_scan/fingerprint.py:320-337 | The one value stays put iff every group holds the facts it held. |
| Fingerprint.OverallDigestIs | opencloud_local_scan/fingerprint.py:320-337 | The one value is the hash of the five group digests under their names, in the order of the names. |
| Fingerprint.PartitionAtColon | opencloud_local_scan/fingerprint.py:380-385 | A stored string is cut back into the scope and digest it was made of. |
| Fingerprint.StoredStringReads | opencloud_local_scan/fingerprint.py:380-385 | Any stored string says scope and digest around its first colon, and nothing when it has none or ends there. |
| Fingerprint.Drift | opencloud_local_scan/fingerprint.py:388-407 | The loop returns, in group order, exactly the drifted groups. |
| Fingerprint.DriftMeans | opencloud_local_scan/fingerprint.py:357-407 | A group drifts iff both scans collected facts, under the same multiset of keys, and the facts differ: never because a probe was off, never because of order. |
| Fingerprint.DriftIsAChangedValue | opencloud_local_scan/fingerprint.py:357-407 | With each key recorded once, drift is a key both scans looked at with two values. |
| Fingerprint.IncomparableMeans | opencloud_local_scan/fingerprint.py:410-431 | Incomparable iff both scans saw something under different keys, unmeasured iff nothing was collected. |
| Fingerprint.EachGroupAnsweredOnce | opencloud_local_scan/fingerprint.py:388-431 | For any stored strings, each group is in exactly one of unmeasured on a side, incomparable, drifted, unchanged. |
| Fingerprint.DriftIsSymmetric | opencloud_local_scan/fingerprint.py:388-422 | Which scan came first plays no part in drift or in what is incomparable. |
| Findings.Checks | opencloud_local_scan/findings.py:198-212 | The dictionary loop over extra checks. |
| Findings.Advisories | opencloud_local_scan/findings.py:215-241 | The dictionary loop over advisories, each a failing side. |
| Findings.ListedIff | opencloud_local_scan/findings.py:198-212 | A check is listed iff some entry carries its non-empty id. |
| Findings.LastEntryCounts | opencloud_local_scan/findings.py:203-212 | The last entry of an identifier is the one that counts. |
| Findings.ComparedExactly | opencloud_local_scan/findings.py:258-301 | The output holds exactly the differences of either document that were asked for, none lost and none twice. |
| Findings.DifferenceReadsOff | opencloud_local_scan/findings.py:198-269 | Every difference holds what the two documents say of one check, or one advisory: nothing where no entry carries the id, else severity, outcome and waiver of the last that does. |
| Findings.StatusMeans | opencloud_local_scan/findings.py:244-255 | Appeared iff the earlier document says nothing, disappeared iff the later one does, and introduced, resolved, open and passing by whether each side fails. |
| Findings.EveryDifferenceIsListed | opencloud_local_scan/findings.py:258-301 | Whatever check or advisory either document carries is in the full comparison. |
| Findings.FilterMeans | opencloud_local_scan/findings.py:282-300 | The filters take exactly the categories asked for, in any case and spacing, and what came, went, broke, was fixed, or is open at another severity or waiver. |
| Findings.WorstComesFirst | opencloud_local_scan/findings.py:288-317 | The output is ordered by urgency, then severity, then identifier; in particular new findings stand before all others. |
| Findings.LinesStandInOrder | opencloud_local_scan/findings.py:304-317 | Any two lines: new before worse before open before gone before passing, and within each the worse severity first, then the identifier. |
| Findings.PromisedOrderIff | opencloud_local_scan/findings.py:278-280 | The promised order, new findings, severity increases, then everything else, each by severity and identifier, holds iff among everything else no finding still open comes after one resolved by severity and identifier, and neither after one passing throughout; and everything else is at least in order of severity iff that holds for severities. |
| Findings.OpenLowPrecedesResolvedCritical | opencloud_local_scan/findings.py:304-317 | Counterexample: in a full comparison an open finding of low severity stands before a resolved critical one. |
| Findings.ResolvedCountsAsWorse | opencloud_local_scan/findings.py:304-317 | A resolved finding whose recorded severity rose stands before every open one whose severity did not. |
| Findings.SwapTurnsEveryDifference | opencloud_local_scan/findings.py:244-301 | Swapping the documents turns every difference round: introduced and resolved, appeared and disappeared, severities reversed, nothing else. |
| Findings.SeverityTotals | opencloud_local_scan/findings.py:320-340 | The loop over differences and their two sides yields each severity seen exactly once, worst first, with its two counts. |
| Findings.TotalsCount | opencloud_local_scan/findings.py:320-340 | Each column is the number of failing sides at that severity, and only severities seen are listed. |
| Findings.SwapSwapsTheColumns | opencloud_local_scan/findings.py:320-340 | Swapping the documents swaps the two columns. |
| Findings.NetMovementSurvivesTheFilter | opencloud_local_scan/findings.py:282-300 | Leaving out what did not change never alters how far a severity's count moved. |
| Findings.ColumnsAddUp | opencloud_local_scan/findings.py:320-340 | On the unfiltered comparison each column sums to the failing checks plus advisories of its document. |
| Severities.SeverityIsSpelled | opencloud_local_scan/findings.py:70-73 | Each severity is recognised by its own word in any case, with any white space around it, and by nothing else. |
| Config.NestingIsFlattened | opencloud_local_scan/config.py:94-100 | Reading a written value back is reading its scalars back one after the other, whatever the nesting. |
| Config.SourcesInOrder | opencloud_local_scan/config.py:113-138 | The four sources of a setting in their order, a value through the secret provider and a named file read, failures included. |
| Config.ListIsTheValueCut | opencloud_local_scan/config.py:169-179 | A list setting is the value cut at semicolons, empty without a value, and a failure when the value is one. |
| Config.ListRoundTripIff | opencloud_local_scan/config.py:169-179 | A nested list reads back as its flattened self iff every scalar is trimmed, not empty and free of the separator; empty sublists vanish. |
| Config.EnvironmentHidesTheFile | opencloud_local_scan/config.py:113-138 | Where the environment gives a value or a secret file, nothing in the configuration file changes the answer. |
| Config.ValueHidesItsFileVariant | opencloud_local_scan/config.py:113-138 | Within one source a direct value hides its secret-file variant. |
| Config.ListSettingReadsBack | opencloud_local_scan/config.py:113-138 | A list in the file means its scalars unless the environment names the setting. |
| Config.EnvironmentSpellsTheSameList | opencloud_local_scan/config.py:169-179 | The environment form of a list means what the file's list means and wins over the file. |
| Prometheus.EscapeStep | opencloud_local_scan/prometheus.py:10-18 | The four replacements in a row are one map over characters. |
| Prometheus.QuotedReadsBack | opencloud_local_scan/prometheus.py:10-18 | For every value a single pass recovers it from its escaped form, stops at the quote that follows and meets no raw line break. |
| Prometheus.LabelsReadBack | opencloud_local_scan/prometheus.py:21-25 | A rendered label set is cut back into its names and values, whatever the values hold. |
| Prometheus.RenderFamilies | opencloud_local_scan/prometheus.py:28-39 | The loop emits each family's two comments and its samples, one per line. |
| Prometheus.EachLineInItsPlace | opencloud_local_scan/prometheus.py:28-39 | Behind the families before it each family shows its help, its type and its samples, each in its own line. |
| Prometheus.NoValueAddsALine | opencloud_local_scan/prometheus.py:28-39 | The text splits into exactly the lines put into it: no label value can add one. |

## Left out

- Sockets, HTTP, files, environment access, Sigstore signatures, TLS inspection, JSON and YAML parsing: bytes and documents are given.
- `dns.ask` and its check of the response id, `system_nameservers`, `is_ip_literal`: whether the target is an address and what each resolver answered are parameters.
- Strict.MalformedIff: does not ask whether a name begins where a pointer leads, how long the name it completes is, what opcode or owner and class a response carries, or how the data of records other than CAA is laid out.
- The rule for which advisories and fields are kept in `parse_repository_advisory`, the regular expression that tokenises bounds, the `patched_versions` fallback and `normalise_version`: the model starts from a list of operators and versions.
- Two spellings of one version among the fixes of an expression, such as 4.00 and 4.0, whose order in the source follows the iteration of a set.
- `document["updated"]` and `document["comment"]` of the merged database: constants and a clock.
- Wording, Markdown, HTML, SARIF, JUnit, Slack and performance data, the wizard, argument parsing: only states and the sets behind them matter.
- Baseline save and load: a save that fails leaves the next run with the older stored state. `recordedAt`, version strings and support days of a snapshot, which only feed its rendering.
- Configuration drift inside `Baseline.Compare` and `Changes.InstanceChanges`: it never decides an alert; drift itself is in `Fingerprint`.
- Version, provenance, reference, policy and waiver changes of `changes.py`, and its limitations: field plumbing around what is modelled.
- Changes.InstanceChanges: the change of the instance's version and of its configuration digests is not among the changes.
- Changes.ScannerChanges: the change of the scanner's version, the difference of the two totals of checks measured, and the notes on what cannot be compared are not among the changes.
- Which facts a fingerprint collects and how they are serialised before hashing: `Fingerprint.Facts` starts from the calls to `add`.
- Placing a version in the release schedule: a report carries both its recorded state and today's.
- `host_key` and the reading of report files and inventories: reports carry their host key.
- `get_bool`, `get_int`, `get_float` and `_flatten` of the configuration: conversions and key names.
- `metrics.py` and the general number format of a sample: a sample carries its value as text.
- Fleet.Failing: the order of the hardening and header blocks is passed in, since a document's maps have none here.
- Config.ListSettingReadsBack: takes the secret provider that returns a value as it stands.
- Titles, display cleaning and truncation of identifiers, groups and reasons in `fleet.py`.
- FleetSummary.AddReport: the version, line, track and upgrade target of a host, its report's path and its age are not carried into the rows.
- FleetSummary.Summarise: the lists of unsupported, ending, failed and stale hosts are sets here; their final order, by dates and days this model does not carry, is not stated.
- AdvisoryMerge.MergeTwiceIff: covers databases with unique ids and feeds whose entries name versions, which the parsers of both feeds see to.
- Verdict.SilencedRunWasAnnounced: covers histories under one setting; with settings that change between runs an earlier run may have looked at less.
