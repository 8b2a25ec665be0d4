# Bugwarden, verified

Bugwarden stands between an MCP client and a Bugzilla server and lets through
what an operator's policy permits. This project models the parts of it that
decide something, in Dafny, and proves what they promise: over every policy and
every bug, every answer the server could give, every text, and every run of the
audit sink with any of its writes, syncs, renames and exports failing at any
point.

Code that updates something in place is a class or a method with a loop, proved
equal to a function of what was there before; the promises are then lemmas about
those functions. The modules ending in `Laws` or `Exact` say what the functions
compute a second time, without them: with the keys, limits and separators written
out, by place and by equation, and prove that the two agree.

| modules | what they model |
|---|---|
| `Glob`, `Policy`, `PolicyLaws`, `PolicyExact`, `RuleLaws`, `BugJson` | the policy engine: glob matching, three-valued matching, first-match classification, validation, reading a bug object; unknown metadata never buys access |
| `Search`, `SearchLaws`, `Guard`, `GuardLaws` | the search window over a paged upstream, and assessing bugs by id |
| `Links`, `LinkLaws`, `UrlScan`, `UrlLaws` | reading and removing the links of a bug body, and local URLs inside free text |
| `UrlOverlap`, `UrlSeeAlso` | the bases for which the scanner of free text passes over a link, exactly |
| `HistoryText`, `History`, `HistoryLaws`, `ScrubLaws` | the same for history and update responses, where ids sit in comma lists, scalars and URLs |
| `CustomFields`, `FieldLaws`, `CacheSteps` | the field-type cache, alone and shared by calls that interleave, and the links of a write request |
| `CreateGate`, `CreateLaws` | rewriting a create request as Bugzilla will file it, and judging the rewritten form |
| `Quoted` | the bounded escaping printer |
| `AuditModel`, `AuditLines`, `AuditRuns`, `AuditStream`, `AuditRotation`, `AuditLoss`, `AuditLaws` | the audit sink as a function of its inputs and faults: the stream heals itself, rotation loses the oldest file only, losses are conserved |
| `AuditSpelling` | a spelling of records with the one property the sink relies on |
| `AuditSink` | the sink as a class over real bytes, shown to follow those functions |
| `AuditGate`, `AuditPass` | the lock-free gate interleaved with the writer and the delivery thread, and a call of the sink as a pass of that writer |
| `Prelude`, `Text`, `Json` | results, string operations, JSON values |

The outside world enters as parameters. An upstream is a function from a request
to an answer or a failure. Case folding, RFC 3339 parsing and age cutoffs are
functions in `Policy.World`; the characters a debug string escapes are a
function in `Quoted`; the spelling of an audit record is any encoding without
newlines in which no record spells the beginning of another (`AuditSpelling` has
one). Each step of an audit write takes its outcome from a `Fault`.

Where the code and its documentation differ, the model follows the code:

- The audit module documents at most one torn line per outage
  (`crates/bugwarden/src/audit.rs:31-35`). Every write that fails after some of
  its record is out leaves one: `AuditStream.TornLinesAreFailures` counts them
  exactly, `AuditStream.OneOutageTwoTornLines` is an outage with two.
- Opening the sink takes the live file to end where a line does. When it does
  not, as after a crash in mid-write, the first record put on it is glued to what
  is there, and that record alone: `AuditStream.OnlyTheFirstIsGlued`. All the
  theorems about the stream hold of such files too;
  `AuditStream.FirstLineNeedsATerminatedFile` says exactly when the first record
  is a line of its own.
- The URL scanner steps over the whole of an occurrence it has read, so for a
  base URL that overlaps itself it can pass over a link:
  `UrlOverlap.ReadExactlyIff` says for exactly which bases it reads every text
  right, and `UrlOverlap.OverlapHidesABug` is a server for which it does not. What
  the whole-value match finds it still finds for all but a few odd bases:
  `UrlSeeAlso.ScannerFindsSeeAlsoIff`.
- The gate's comment promises that a loss moved under it cannot be missed. One
  that lands between the writer's own peek and its drain can be, until it is
  mirrored. `AuditGate.ClearReadingIsWrongIff` says exactly when: the gate's peek
  and its reading of the flag both fall between such a drain and its mirroring.
  `AuditGate.RaceExists` is a run in which they do.

## Model

| member | source | states |
|---|---|---|
| Glob.Search | crates/bugwarden-core/src/policy.rs:153-183 | the iterative search with one remembered star answers true exactly when the pattern covers the whole value, a star standing for any stretch, within (value length + 1) * (pattern length + 1) turns |
| Glob.GlobMatch | crates/bugwarden-core/src/policy.rs:147-183 | the match is made on both sides' lower-case forms, and is the declarative one |
| Glob.LaterStarSubsumes | crates/bugwarden-core/src/policy.rs:160-182 | why only the last star need be remembered: whatever a longer swallow of an earlier star covers, the later star covers too |
| Glob.LiteralRun | crates/bugwarden-core/src/policy.rs:160-182 | a star-free stretch of the pattern consumes just as many characters of the value |
| Policy.Evaluate | crates/bugwarden-core/src/policy.rs:315-433 | the early-leaving evaluation equals the three-valued conjunction of all twelve criteria: a definite No wins over unknown, unknown over Yes |
| Policy.ScanSingles | crates/bugwarden-core/src/policy.rs:330-348 | the loop over single-valued glob criteria, left at the first No, gives their combined outcome |
| Policy.ScanLists | crates/bugwarden-core/src/policy.rs:350-367 | the same for criteria matched against any element of a list |
| Policy.ScanTexts | crates/bugwarden-core/src/policy.rs:369-385 | the same for substrings searched in free text |
| Policy.CheckScope | crates/bugwarden-core/src/policy.rs:854-900 | a written scope is accepted exactly when it is not empty and a restrict rule's capabilities agree with it about filing bugs |
| Policy.CheckRule | crates/bugwarden-core/src/policy.rs:801-901 | one rule's own checks pass exactly when its name is usable, its capabilities fit its action and its scope is consistent |
| Policy.Validate | crates/bugwarden-core/src/policy.rs:756-903 | validation accepts exactly the well-formed policies, names unique among them, and blames the first rule that spoils the rules before it |
| RuleLaws.RuleExactly | crates/bugwarden-core/src/policy.rs:801-901 | a rule is accepted exactly when its name has a character that is not blank, is not default, min_bug_age_days or unavailable and does not end in :unreadable-metadata, it lists capabilities exactly when it restricts, and its scope, if written, covers filing if it lists create and access if it lists anything else |
| RuleLaws.PolicyExactly | crates/bugwarden-core/src/policy.rs:756-903 | a policy is accepted exactly when its default does not restrict, a login is given exactly when the identity is declared, its rules are such and their names differ |
| PolicyLaws.CriteriaStable | crates/bugwarden-core/src/policy.rs:292-433 | learning an unread field changes no criterion's definite outcome |
| PolicyLaws.OutcomeStable | crates/bugwarden-core/src/policy.rs:292-433 | a definite verdict on a partly read bug is the verdict on every completion of it |
| PolicyLaws.CompleteDecides | crates/bugwarden-core/src/policy.rs:210-433 | on a fully known bug a matcher is never undecided, and holds exactly when every criterion given holds, any element of a list sufficing |
| PolicyExact.OutcomeExactly | crates/bugwarden-core/src/policy.rs:292-433 | on any bug: No exactly when a criterion that is given and whose field is read fails, else unknown exactly when the field of one that is given is unread, else Yes |
| PolicyExact.UnaskedDoesNotMatter | crates/bugwarden-core/src/policy.rs:292-433 | the verdict is the same on two bugs that agree on the fields the matcher has criteria for |
| PolicyExact.ReadDecides | crates/bugwarden-core/src/policy.rs:292-433 | a matcher all of whose fields are read answers Yes or No |
| PolicyLaws.OutcomeMeansEveryCompletion | crates/bugwarden-core/src/policy.rs:292-433 | Yes and No are answered only when every completion of what was read agrees |
| PolicyLaws.WalkStopsAtFirst | crates/bugwarden-core/src/policy.rs:950-999 | the walk over the rules is decided by the first rule in scope whose matcher holds, else by the default |
| PolicyLaws.AccessMeans | crates/bugwarden-core/src/policy.rs:905-1028 | on a fully known bug a capability is allowed exactly when the bug is old enough, the capability survives read-only, and the first matching rule in scope or else the default gives it |
| PolicyExact.AccessExactly | crates/bugwarden-core/src/policy.rs:905-1028 | the same on any bug, read in full or in part: the first rule in scope that cannot be ruled out decides, and gives nothing while a field it asks about is unread |
| PolicyExact.ClassifyUnasked | crates/bugwarden-core/src/policy.rs:905-999 | a field that no rule in scope and no age gate asks about does not change a classification |
| PolicyLaws.GrantStable | crates/bugwarden-core/src/policy.rs:905-999 | a grant given on partial knowledge is the identical grant on every completion |
| PolicyLaws.UnknownNeverBuysAccess | crates/bugwarden-core/src/policy.rs:905-999 | no capability is allowed on a partly read bug that a completion would not allow |
| PolicyLaws.OutOfScopeIsInvisible | crates/bugwarden-core/src/policy.rs:514-534 | deleting the rules scoped away from an operation changes no classification for it, the fail-closed path included |
| PolicyLaws.IdentityUnused | crates/bugwarden-core/src/policy.rs:1001-1016 | when no identity is needed, classifying for access does not depend on who created the bug |
| PolicyExact.IdentityAsked | crates/bugwarden-core/src/policy.rs:1001-1016 | an identity is needed exactly when some rule that applies to access asks who created the bug |
| PolicyLaws.ReadOnlyOnlyStrips | crates/bugwarden-core/src/policy.rs:1018-1028 | read-only keeps every decision and its rule name and takes out exactly the write capabilities |
| PolicyLaws.NamesIdentify | crates/bugwarden-core/src/policy.rs:756-838 | in a validated policy no two deciders, rules, unreadable paths, default or age gate, share a recorded name, and none has the unavailable one |
| PolicyLaws.ClosedName | crates/bugwarden-core/src/policy.rs:756-838 | the unreadable suffix marks the unreadable path alone, the reserved names the default and the age gate alone |
| PolicyLaws.RecordNamesTheDecider | crates/bugwarden-core/src/policy.rs:905-999 | the name a classification records tells which rule, unreadable path, default or age gate decided it |
| BugJson.SentIsRead | crates/bugwarden-core/src/policy.rs:1122-1163 | a bug object that says everything under Bugzilla's keys is read back field by field, nothing lost or swapped |
| BugJson.NamesExactly | crates/bugwarden-core/src/policy.rs:1080-1100 | these names are read exactly from a list of just these, each bare or in an object that carries it, in order, or from the one of them standing alone |
| BugJson.WhiteboardExactly | crates/bugwarden-core/src/policy.rs:1102-1120 | this whiteboard text is read exactly when it is under its key and not empty, or under the legacy key with the other empty or missing, or empty with no legacy key |
| BugJson.ListReadInFull | crates/bugwarden-core/src/policy.rs:1080-1100 | a list is read exactly when each element is readable, and then whole and in order |
| BugJson.GarbledKnowsLess | crates/bugwarden-core/src/policy.rs:1072-1163 | replacing values by unreadable ones, or taking keys other than the whiteboard's away, yields metadata the original completes |
| BugJson.GarblingNeverAddsACapability | crates/bugwarden-core/src/policy.rs:1072-1163 | garbling a bug object in any number of fields, or dropping keys other than the whiteboard's, never adds a capability, for either operation |
| BugJson.UnresolvedCallerNeverGains | crates/bugwarden-core/src/policy.rs:1122-1163 | a caller whose identity could not be resolved gets no capability the resolved one would not |
| BugJson.DroppingWhiteboardIsSafeIff | crates/bugwarden-core/src/policy.rs:1102-1120 | exactly when taking the whiteboard key away leaves only knowledge the bug bears out |
| BugJson.DroppingLegacyIsSafeIff | crates/bugwarden-core/src/policy.rs:1102-1120 | the same for the legacy key |
| BugJson.DroppingAWhiteboardKeyCanMislead | crates/bugwarden-core/src/policy.rs:1102-1120 | a bug whose marker reads as another text once its key is dropped |
| Search.FilterBugList | crates/bugwarden-core/src/guard.rs:1372-1412 | in order: what is shown of each bug, and the readable ids of those dropped |
| Search.TakeFresh | crates/bugwarden-core/src/guard.rs:391-401 | rows with a readable id not met before, first occurrences only; the ids met grow by the chunk's |
| Search.JudgeChunk | crates/bugwarden-core/src/guard.rs:391-406 | one chunk's effect on the visible bugs, the ids met and the ids dropped, as of the whole scan so far |
| Search.ScanTo | crates/bugwarden-core/src/guard.rs:364-411 | the scan loop: what it makes visible, scans and drops, the requests it makes in order, and the failure that ends it |
| Search.QuicksearchWindow | crates/bugwarden-core/src/guard.rs:326-436 | the page, row count and dropped ids, or the upstream's failure, and the requests made |
| Search.ScanIsPrefix | crates/bugwarden-core/src/guard.rs:341-411 | a scan with a target sees a prefix of what the unbounded scan sees, lacks only what lies past the target, and fails exactly when the upstream does before it |
| Search.PageIsSlice | crates/bugwarden-core/src/guard.rs:326-436 | every page is the slice from min(offset, e) to e = min(offset + limit, 1000, length of V) of one visible list V independent of offset and limit, and fails exactly when the upstream does short of the target |
| SearchLaws.PageAccounts | crates/bugwarden-core/src/guard.rs:326-436 | the scan behind every page asks for chunks of 200 and stops at its target, at 2000 rows, at ten requests, at an answer without rows or at a failure, and no sooner; the page reports the rows scanned and the ids dropped of it; a limit of nothing asks for nothing |
| SearchLaws.VisibleAsDefined | crates/bugwarden-core/src/guard.rs:391-406 | what a scan shows and drops is, row by row, the first row of each readable id, shown as judged or dropped if hidden |
| SearchLaws.CanonicalIsVisible | crates/bugwarden-core/src/guard.rs:326-436 | the list all pages are cut from is what is so shown of the rows a scan without a target brings |
| Search.PagesCompose | crates/bugwarden-core/src/guard.rs:326-436 | adjacent pages concatenate to the page that spans them |
| Search.SameBlockSameWork | crates/bugwarden-core/src/guard.rs:341-371 | pages that reach into the same block of 200 make the same requests, have the same answers, and scan and drop the same rows |
| Search.FreshIds | crates/bugwarden-core/src/guard.rs:391-401 | deduplication keeps every new readable id exactly once |
| Search.SharedOut | crates/bugwarden-core/src/guard.rs:1392-1412 | judging shares the rows' ids out between shown and dropped, none lost or doubled |
| Search.VisibleAndDroppedPartition | crates/bugwarden-core/src/guard.rs:359-411 | for any upstream every readable id scanned is visible once or dropped once, never both |
| Search.PagedScan | crates/bugwarden-core/src/guard.rs:255-271 | ten full chunks reach the end of any result list within the scan bound |
| Search.HiddenRowsDoNotInterfere | crates/bugwarden-core/src/guard.rs:326-436 | two result lists with the same visible bugs give the same page for every offset and limit, whatever is hidden between them |
| Guard.ViewsKeepIds | crates/bugwarden-core/src/guard.rs:1358-1369 | the summary view keeps a bug's id |
| Guard.ShownIffAllowed | crates/bugwarden-core/src/guard.rs:1392-1412 | a search shows a bug exactly when its summary is allowed, and whole only when reading it is |
| Guard.SummaryShows | crates/bugwarden-core/src/guard.rs:1358-1369 | a summary has the ten summary fields as they are in the bug, a redaction mark and nothing else |
| GuardLaws.ReadExactly | crates/bugwarden-core/src/policy.rs:1122-1163 | all that is read of a bug object, key by key, and nothing else |
| GuardLaws.ViewExactly | crates/bugwarden-core/src/guard.rs:1392-1412 | a bug is shown whole exactly when the policy permits reading it on access, in summary exactly when it permits only that, and else not |
| Guard.Fetch | crates/bugwarden-core/src/guard.rs:206-217 | a fetched bug is filed under the id asked for only when the server labels it so |
| Guard.FetchAll | crates/bugwarden-core/src/guard.rs:188-226 | one request for each of the first 25 distinct ids in order, whatever comes back; what is held is what was served under its own label |
| Guard.Assess | crates/bugwarden-core/src/guard.rs:135-249 | every id asked about gets the verdict of its own bug, or the unavailable denial |
| Guard.WorkDependsOnIdsAlone | crates/bugwarden-core/src/guard.rs:135-249 | at most 25 requests, and an id past the bound is denied as one that is not there |
| Guard.AskedInOrder | crates/bugwarden-core/src/guard.rs:188-226 | the k-th request is for the k-th id not met before, up to 25 |
| Guard.LabelledExactly | crates/bugwarden-core/src/guard.rs:206-217 | the bug that answers is the last one in the answer the server labels with the id, at any position, and there is none exactly when no bug is so labelled |
| GuardLaws.VerdictExactly | crates/bugwarden-core/src/guard.rs:135-249 | a capability is allowed on an id exactly when it is among the first 25 distinct ones, the server answers with a bug so labelled, and the policy permits it on that bug |
| Links.Document.ScrubBugLinks | crates/bugwarden-core/src/guard.rs:586-646 | the body edited in place is the body with every link family scrubbed and every other key untouched |
| Links.ScrubFamilies | crates/bugwarden-core/src/guard.rs:592-646 | the per-family passes together edit each key by its family, once |
| Links.FieldScrubExact | crates/bugwarden-core/src/guard.rs:592-646 | for each family, what is named after scrubbing is what was named and may be |
| Links.ScrubIsExact | crates/bugwarden-core/src/guard.rs:511-646 | reading a scrubbed body yields the ids read before, intersected with those that may be named |
| LinkLaws.LinkedExactly | crates/bugwarden-core/src/guard.rs:443-551 | the ids read are exactly the numbers directly or in a list under blocks, depends_on, dependson, duplicates, regressed_by, regressions, blocked or a key beginning cf_, directly under dupe_of or dup_id, and those of local URLs under url or in a list under see_also |
| LinkLaws.ScrubExactly | crates/bugwarden-core/src/guard.rs:586-646 | key by key what a scrub leaves: lists thinned out in order, single values kept or nulled, strings under cf_ and every other key untouched, no key lost; and under none of those keys is a bug outside the set named any more |
| Links.ScrubTwice | crates/bugwarden-core/src/guard.rs:586-646 | scrubbing with two sets in turn is scrubbing with their intersection; scrubbing again changes nothing |
| UrlScan.Scan | crates/bugwarden-core/src/guard.rs:923-974 | the scan loop ends and collects what its stops name |
| UrlScan.EmbeddedLocalIds | crates/bugwarden-core/src/guard.rs:873-975 | the ids of a text, read case-insensitively against the stripped base URL; none for an empty base |
| UrlScan.NamedByStops | crates/bugwarden-core/src/guard.rs:923-974 | the ids collected are those named at the positions stopped at |
| UrlScan.ScanIsCompleteIff | crates/bugwarden-core/src/guard.rs:923-974 | the scan stops at every left-bounded occurrence in every text exactly for the bases that do not overlap themselves after a non-host character |
| UrlScan.BareHostIsBorderless | crates/bugwarden-core/src/guard.rs:923-974 | a bare host name, port included, is such a base |
| UrlScan.OverlapIsMissed | crates/bugwarden-core/src/guard.rs:923-974 | for any other base, a text with a local position the scan passes over |
| UrlScan.EmbeddedIdsExact | crates/bugwarden-core/src/guard.rs:873-975 | the ids read are exactly those named at the left-bounded occurrences of the base |
| UrlScan.RestAgrees | crates/bugwarden-core/src/guard.rs:934-967 | what the whole-value reading finds after the base, the scanner's reading finds there too |
| UrlLaws.RestExactly | crates/bugwarden-core/src/guard.rs:889-967 | behind the base exactly these ids are read: each whole nonzero digit run right behind an id= that starts a pair of the query of /show_bug.cgi or /rest/bug, or behind a comma of its value, up to the first fragment or end of the URL; and each comma piece of a /rest/bug/ path |
| UrlLaws.TextExactly | crates/bugwarden-core/src/guard.rs:873-975 | a text names exactly the ids so read behind the occurrences of the base that no host character precedes, for a base that does not overlap itself |
| UrlLaws.TextNamesNoMore | crates/bugwarden-core/src/guard.rs:873-975 | for any base the scanner reads no id but those |
| UrlLaws.SeeAlsoExactly | crates/bugwarden-core/src/guard.rs:553-584 | the whole-value match finds an id exactly in a text that is, blanks, repeated schemes and case aside, the host and path of the instance and then /show_bug.cgi?id= or /rest/bug/ with that whole digit run |
| UrlOverlap.IdsAfterPlaced | crates/bugwarden-core/src/guard.rs:889-967 | every id read behind an occurrence is a digit run in its place, behind a comma or an equals sign or right behind the REST path |
| UrlOverlap.LinkIsPassedOver | crates/bugwarden-core/src/guard.rs:923-974 | a link behind the second of two overlapping occurrences is read from no stop, if nothing else spells its number |
| UrlOverlap.OverlapLosesABug | crates/bugwarden-core/src/guard.rs:873-975 | for any base that overlaps itself, a text one of whose local URLs goes unread |
| UrlOverlap.ReadExactlyIff | crates/bugwarden-core/src/guard.rs:873-975 | in every text the ids read are exactly those of its local URLs, if and only if the base does not overlap itself after a non-host character |
| UrlOverlap.OverlapHidesABug | crates/bugwarden-core/src/guard.rs:923-974 | a host serving from a path of its own name, and a text whose link to bug 7 goes unread there |
| UrlSeeAlso.ScannerFindsSeeAlso | crates/bugwarden-core/src/guard.rs:553-584 | every nonzero id the whole-value match finds the scanner finds, unless the base begins with a scheme or blanks it repeats itself behind |
| UrlSeeAlso.HidingLosesABug | crates/bugwarden-core/src/guard.rs:873-887 | for such a base, a text whose id the whole-value match finds and the scanner does not |
| UrlSeeAlso.ScannerFindsSeeAlsoIff | crates/bugwarden-core/src/guard.rs:873-975 | the scanner finds what the whole-value match finds in every text exactly for the bases that do not hide their beginning so |
| UrlSeeAlso.PlainStartHidesNothing | crates/bugwarden-core/src/guard.rs:877-887 | no base that begins with neither a blank, a slash nor a scheme does |
| UrlSeeAlso.APlainBase | crates/bugwarden-core/src/guard.rs:877-887 | the base of a host serving from a path of its own name, which overlaps itself, does not either |
| UrlSeeAlso.AHidingBase | crates/bugwarden-core/src/guard.rs:877-887 | a base that does |
| UrlScan.EmptyBaseReadsNothing | crates/bugwarden-core/src/guard.rs:883-887 | without a base URL the scanner reads nothing |
| HistoryText.LocalIsQuiet | crates/bugwarden-core/src/guard.rs:978-991 | nothing is read off a blanked URL text, so blanking one hides all it named |
| HistoryText.KeepIdsExact | crates/bugwarden-core/src/guard.rs:774-795 | an edited comma list reads back as the ids read before that may be named |
| HistoryText.KeepIdsTwice | crates/bugwarden-core/src/guard.rs:774-795 | editing a comma list with two sets in turn is editing with their intersection |
| HistoryText.KeepScalarExact | crates/bugwarden-core/src/guard.rs:808-823 | a kept scalar names exactly the id it named if it may, strict or lenient |
| HistoryText.KeptIdsExact | crates/bugwarden-core/src/guard.rs:774-871 | for every kind of history field, what is named after keeping is what was and may be; a URL text is kept whole or not at all |
| HistoryText.KeptTwice | crates/bugwarden-core/src/guard.rs:774-871 | keeping twice is keeping once with the common set, for every kind |
| HistoryLaws.ListLeftExactly | crates/bugwarden-core/src/guard.rs:774-795 | what is left of a comma list is the parts between commas, blanks aside, that are not empty and spell or link no bug outside the set, in order and joined by comma and space |
| HistoryLaws.ScalarLeftExactly | crates/bugwarden-core/src/guard.rs:797-823 | what is left of a scalar is the whole text if it is cleared, names a bug of the set, or names none where the kind is unknown, and else nothing |
| HistoryLaws.KindExactly | crates/bugwarden-core/src/guard.rs:747-772 | which fields name bugs and how, by name: url, the ten list fields, and a cf_ field by its kind, one of no known kind included |
| HistoryLaws.UrlTextExactly | crates/bugwarden-core/src/guard.rs:978-991 | a URL text is left whole exactly when every local URL in it names bugs of the set, for a base that does not overlap itself |
| HistoryText.UpdateKeepsWithin | crates/bugwarden-core/src/guard.rs:1050-1081 | what an update half keeps names no nonzero id outside the set, an unknown field read both as a scalar and as a list |
| HistoryText.ClearListNamesNothing | crates/bugwarden-core/src/guard.rs:797-806 | a cleared reading names at most bug 0 even when taken as a list |
| HistoryText.ParsersAgreeOnTargets | crates/bugwarden-core/src/custom_fields.rs:264-282 | the write parser accepts an id exactly when the history reader reads it and only ASCII blanks surround it |
| HistoryText.ParsersAgreeOnClear | crates/bugwarden-core/src/custom_fields.rs:264-282 | likewise for clearing values and the history reader's cleared marker |
| History.RetainChange | crates/bugwarden-core/src/guard.rs:700-733 | the closure's edited change and its verdict are those of scrubbing that one change |
| History.RetainChanges | crates/bugwarden-core/src/guard.rs:700-733 | the retained changes of one entry, in order |
| History.EditEntries | crates/bugwarden-core/src/guard.rs:698-733 | the first pass: every entry's changes edited where they stand |
| History.DropEmptied | crates/bugwarden-core/src/guard.rs:734-739 | the second pass: entries left without a change are dropped, the others kept in order |
| History.TwoPasses | crates/bugwarden-core/src/guard.rs:683-741 | the two passes come to scrubbing entry by entry |
| History.ScrubHistory | crates/bugwarden-core/src/guard.rs:683-741 | the two passes, against the history scrubbed entry by entry |
| History.ScrubHistoryFor | crates/bugwarden-core/src/guard.rs:683-741 | the same for this instance and the given field kinds |
| History.ScrubIsSound | crates/bugwarden-core/src/guard.rs:669-741 | a scrubbed history names only ids it named before and that may be named, and a second scrub changes nothing |
| History.ScrubIsExact | crates/bugwarden-core/src/guard.rs:669-741 | it loses no id that may be named, unless a URL text names hidden ones beside it |
| ScrubLaws.HistoryExactly | crates/bugwarden-core/src/guard.rs:683-741 | a scrubbed history, change by change: the halves of a naming field are left as its kind says, a change goes exactly when neither half has anything left, an entry when all its changes go, and everything else stays as it was and in order |
| ScrubLaws.HistoryReadExactly | crates/bugwarden-core/src/guard.rs:669-681 | the ids read off a history are exactly those its halves name, field by field, and a scrubbed one names none outside the set |
| History.UpdateResponse.ScrubUpdateChanges | crates/bugwarden-core/src/guard.rs:993-1088 | the response edited in place: entries outside the set gone, malformed parts removed, each id-bearing change reduced to its kept halves or dropped |
| History.EditBug | crates/bugwarden-core/src/guard.rs:1037-1086 | one updated bug: changes that are no object are dropped, others retained |
| History.RetainFields | crates/bugwarden-core/src/guard.rs:1049-1086 | the changes of one updated bug, field by field in any order |
| History.UpdateBugsInTwoPasses | crates/bugwarden-core/src/guard.rs:1027-1035 | filtering the entries first and editing after gives the same list as doing both at once |
| History.UpdateScrubIsSound | crates/bugwarden-core/src/guard.rs:993-1088 | every surviving entry has an id in the set, and names no nonzero id outside it under any reading of its kind |
| ScrubLaws.UpdateExactly | crates/bugwarden-core/src/guard.rs:993-1088 | a scrubbed update, entry by entry and field by field: what goes, what is left of each half, a field of no known kind taken for a list unless cleared, and that all else stays |
| CustomFields.ReadKinds | crates/bugwarden-core/src/custom_fields.rs:83-110 | one pass over the answer finds the kind of each name asked about |
| CustomFields.LinkWins | crates/bugwarden-core/src/custom_fields.rs:83-110 | a name listed several times may link exactly when one of its entries may, and is never settled as unknown |
| FieldLaws.TypeCodes | crates/bugwarden-core/src/custom_fields.rs:61-80 | type 6 is one bug, 7 and 22 are lists of them, 1 to 5 and 8 to 10 are no links, and no other code settles anything |
| CustomFields.CacheIsLastSettled | crates/bugwarden-core/src/custom_fields.rs:112-221 | over every order in which answers are put in the cache it holds exactly the names their latest answer settled, with that answer, never Unknown |
| CacheSteps.NextKeeps | crates/bugwarden-core/src/custom_fields.rs:123-221 | a call begun, or a request of any call answered or failed, keeps the cache and every call's partial answer in order |
| CacheSteps.CacheIsLastSettledOfAll | crates/bugwarden-core/src/custom_fields.rs:112-221 | at every moment of any interleaving of calls the cache holds what the last answer for each name settled |
| CacheSteps.CallSeesItsOwnAnswers | crates/bugwarden-core/src/custom_fields.rs:123-221 | a finished call answers all its names, from what was cached when it began or from its own requests, whatever other calls did |
| CacheSteps.NoKindIsInvented | crates/bugwarden-core/src/custom_fields.rs:123-221 | a kind a call returns was told by some request, or is Unknown |
| CustomFields.FieldTypeCache.Settle | crates/bugwarden-core/src/custom_fields.rs:186-221 | an answered request caches what it settles and forgets the rest of what it asked |
| CustomFields.FieldTypeCache.Forget | crates/bugwarden-core/src/custom_fields.rs:186-221 | a failed request forgets every name it covers and nothing else |
| CustomFields.FieldTypeCache.LookUp | crates/bugwarden-core/src/custom_fields.rs:168-221 | chunks of fifty cover the names once each; the cache and the answer agree on them |
| CustomFields.FieldTypeCache.Kinds | crates/bugwarden-core/src/custom_fields.rs:123-153 | asks for exactly the names not cached; the answer is what the cache now says of each name, else Unknown |
| CustomFields.FieldTypeCache.KindsFresh | crates/bugwarden-core/src/custom_fields.rs:155-166 | asks for every name again; the answer is what the cache now says |
| CustomFields.FiftyAtATime | crates/bugwarden-core/src/custom_fields.rs:168-221 | the requests of a lookup are for fifty names each, in order, with one for what remains |
| CustomFields.CollectTargets | crates/bugwarden-core/src/custom_fields.rs:336-349 | the targets of one value's pieces, and whether one of them cannot be judged |
| CustomFields.FindCustomLinks | crates/bugwarden-core/src/custom_fields.rs:311-352 | every target of every linking field, and the first field in key order that cannot be judged, if any |
| FieldLaws.ScalarExactly | crates/bugwarden-core/src/custom_fields.rs:249-295 | a value names a bug exactly when it is that number, or a text of its digits with ASCII blanks around and one hash in front at most; and clears exactly when null, zero or blank |
| FieldLaws.TargetsExactly | crates/bugwarden-core/src/custom_fields.rs:311-352 | the targets are exactly the bugs so named by the values of linking fields: elements of an array and comma pieces for a list, the value itself for one bug or an unknown kind |
| FieldLaws.JudgedExactly | crates/bugwarden-core/src/custom_fields.rs:311-352 | a field can be judged exactly when each such value names a bug or clears |
| CustomFields.ScalarReadsAsList | crates/bugwarden-core/src/custom_fields.rs:249-295 | a value the scalar reading can judge reads the same as a list |
| CustomFields.CommaIsUnassessable | crates/bugwarden-core/src/custom_fields.rs:264-282 | a text with a comma is never one id |
| CustomFields.TargetsWithinCandidates | crates/bugwarden-core/src/custom_fields.rs:297-309 | the candidates counted before any lookup include every target, whatever the kinds |
| CustomFields.NotKnowingNeverAdmits | crates/bugwarden-core/src/custom_fields.rs:311-352 | a write that passes with kinds degraded to unknown passes with the true ones, with no new target |
| CreateGate.BugzillaCleanText | crates/bugwarden-core/src/guard.rs:1565-1583 | the character loop's text: control runs collapsed to one space, edges trimmed |
| CreateGate.CleanTextSettles | crates/bugwarden-core/src/guard.rs:1565-1583 | a cleaned text has no control character and no blank edge, and cleaning it again changes nothing |
| CreateGate.FileKeywords | crates/bugwarden-core/src/guard.rs:1524-1542 | the keyword list as filed: trimmed, blank and "0" names gone, the rest in order |
| CreateGate.Normalize | crates/bugwarden-core/src/guard.rs:1505-1543 | the in-place rewrite, key by key, files every field as Bugzilla will |
| CreateLaws.TitleIsFiled | crates/bugwarden-core/src/guard.rs:1565-1583 | a title is filed with each whole run of control characters as one space, all other characters as they are, and no blank at its edges |
| CreateLaws.FiledAsSaid | crates/bugwarden-core/src/guard.rs:1505-1543 | for each key what is filed: the four names trimmed, the title cleaned, the keywords filed or the key dropped, anything else as it came |
| CreateLaws.KeywordsOneByOne | crates/bugwarden-core/src/guard.rs:1524-1542 | keywords are filed one by one, in order |
| CreateLaws.OneKeyword | crates/bugwarden-core/src/guard.rs:1524-1542 | each keyword is filed trimmed, kept raw when trimming leaves what Bugzilla skips, and dropped when it is that itself |
| CreateGate.NormalizedOnce | crates/bugwarden-core/src/guard.rs:1505-1543 | the rewrite is a fixed point after one application |
| CreateGate.CreateRequest.Judge | crates/bugwarden-core/src/guard.rs:1161-1288 | the request is left in its filed form, and judged on it |
| CreateGate.FiledFormJudgedTheSame | crates/bugwarden-core/src/guard.rs:1161-1288 | judging the filed form again gives the same verdict |
| CreateGate.ClaimsDoNotCount | crates/bugwarden-core/src/guard.rs:1264-1288 | the verdict depends on nothing the request claims about its groups, its date or its creator |
| CreateGate.KeywordEvidence | crates/bugwarden-core/src/guard.rs:1545-1557 | keywords that count as evidence are the ones that will be filed, trimmed, none blank or "0" |
| CreateGate.PermissionCoversWhatIsAdded | crates/bugwarden-core/src/guard.rs:1264-1288 | a permitted request stays permitted whatever Bugzilla fills in for what it left open |
| CreateLaws.JudgedAsItWouldBe | crates/bugwarden-core/src/guard.rs:1245-1288 | the bug judged is the filed request read key by key, created now by the caller, in unread groups |
| CreateLaws.MayCreateExactly | crates/bugwarden-core/src/guard.rs:1161-1288 | a filing is permitted exactly when the policy permits creating that bug: where the rules in scope ask only about fields that are read, exactly when the first that holds, or else the default, gives it |
| Quoted.ReadRendered | crates/bugwarden-core/src/quoted.rs:36-61 | what is written for any character reads back as that character, whatever follows it |
| Quoted.UnescapeRenderAll | crates/bugwarden-core/src/quoted.rs:36-61 | rendering a text and reading it back gives the text |
| Quoted.RenderedShape | crates/bugwarden-core/src/quoted.rs:36-61 | each character is written as itself, as a backslash and one letter, or as a hexadecimal escape, a quote and a backslash never bare |
| Quoted.QuoteClosesOnce | crates/bugwarden-core/src/quoted.rs:36-61 | in what is written between the quotes no quote stands that is not escaped |
| Quoted.RenderingStaysOnLine | crates/bugwarden-core/src/quoted.rs:36-61 | no newline, carriage return, tab or null is written bare |
| Quoted.FittingIsLongest | crates/bugwarden-core/src/quoted.rs:44-59 | the characters written are the longest prefix whose rendering fits the budget |
| Quoted.Formatter.WriteFitting | crates/bugwarden-core/src/quoted.rs:44-59 | the loop writes the rendering of just that prefix, as far as the formatter takes it |
| Quoted.Formatter.WriteQuoted | crates/bugwarden-core/src/quoted.rs:36-61 | a quote, the rendered prefix and a quote are written, or as much of them as the formatter takes before it refuses |
| Quoted.QuotedIsAPrefix | crates/bugwarden-core/src/quoted.rs:10-61 | the middle of the output fits 1016 characters and decodes to exactly a prefix, which one more character would overflow |
| Quoted.WholeIffItFits | crates/bugwarden-core/src/quoted.rs:10-61 | a text is written whole exactly when its rendering fits |
| AuditModel.Shift | crates/bugwarden/src/audit.rs:1564-1571 | slot 1 is free once the shift succeeds, every rename having had an empty target |
| AuditLines.LinesJoin | crates/bugwarden/src/audit.rs:26-35 | texts meeting at a newline are read line by line as each alone |
| AuditLines.PartLines | crates/bugwarden/src/audit.rs:1447-1458 | whatever part of a line got out reads as the stretch of its record that got out, or as nothing |
| AuditLines.FileLines | crates/bugwarden/src/audit.rs:1196-1202 | a file kept by the repair rule reads as one line for each write that left anything of its record |
| AuditLines.SettledLines | crates/bugwarden/src/audit.rs:1442-1458 | so does a file found unfinished, once what was found and the record put on it are taken as one |
| AuditLines.SettledHeals | crates/bugwarden/src/audit.rs:1196-1202 | a line begun unrepaired on a finished file, or as the first on a file just found, keeps the repair rule |
| AuditLines.TornDoesNotParse | crates/bugwarden/src/audit.rs:26-35 | a torn line is never mistaken for a record |
| AuditLines.TornLinesCounted | crates/bugwarden/src/audit.rs:26-35 | the unparsable lines are exactly the torn writes and those that were there before |
| AuditLines.TornWritesFailed | crates/bugwarden/src/audit.rs:1492-1507 | torn writes never outnumber failed ones |
| AuditRuns.ShiftAllKeeps | crates/bugwarden/src/audit.rs:1542-1580 | however far the renames get, the files in order are a suffix of what they were, and the open file is the newest |
| AuditRuns.RotateKeeps | crates/bugwarden/src/audit.rs:1542-1588 | a rotation, failed at any step or not, keeps the order of the files, the repair rule and the numbering |
| AuditRuns.RecordStable | crates/bugwarden/src/audit.rs:1370-1430 | what rotation, line writing and loss counting keep, a whole call keeps |
| AuditRuns.RunKeeps | crates/bugwarden/src/audit.rs:1370-1536 | over every run from any files found: suffix, repair rule, numbering, and a live file finished unless torn or untouched |
| AuditStream.OnlyTheFirstIsGlued | crates/bugwarden/src/audit.rs:1249-1325 | over every run from any files found at most one record is glued to another line, the first ever written, on a live file found unfinished |
| AuditStream.StreamHealsItself | crates/bugwarden/src/audit.rs:1434-1536 | from any files found and after any faults the surviving files hold the most recent of everything written, and read as one line for each write kept apart that left anything; all are if the live file was finished |
| AuditStream.WrittenRecordIsALine | crates/bugwarden/src/audit.rs:1434-1536 | every record written successfully, not rotated away and not glued is a line of its own, in its place |
| AuditStream.TornLinesAreFailures | crates/bugwarden/src/audit.rs:1434-1536 | the unparsable lines of the files are the torn writes among them, never more than the failed ones, and what was there before |
| AuditStream.OneOutageTwoTornLines | crates/bugwarden/src/audit.rs:26-35 | an outage that leaves two torn lines |
| AuditStream.SuchAnOutage | crates/bugwarden/src/audit.rs:26-35 | there is a sink, with a spelling of its records, and an outage of it that do |
| AuditSpelling.LineSafeSpelling | crates/bugwarden/src/audit.rs:26-35 | records can be spelt so that none holds a newline and none begins another |
| AuditStream.NumbersRise | crates/bugwarden/src/audit.rs:1352-1369 | from any files found, from one record on file to the next the number rises by one, or repeats when the first one's write or sync failed |
| AuditStream.FirstLineNeedsATerminatedFile | crates/bugwarden/src/audit.rs:1249-1325 | after opening and one call without a fault the live file reads as before with the record behind, exactly when it was found empty or ending in a newline |
| AuditRotation.RotationShiftsByOne | crates/bugwarden/src/audit.rs:1538-1588 | a successful rotation moves every file up one slot, opens an empty live file and loses the last slot alone |
| AuditRotation.ShiftAllWithin | crates/bugwarden/src/audit.rs:1554-1580 | no file's contents change in a shift, however it ends |
| AuditRotation.FilesKeepToTheLimit | crates/bugwarden/src/audit.rs:1460-1468 | without failed writes or syncs, the size counted is the open file's and every file is within the limit or holds one record |
| AuditLaws.RoomMeansNoRotation | crates/bugwarden/src/audit.rs:1460-1468 | whatever failed before, a line only adds to the open file, no name moving and nothing deleted, if there is no limit, the file is empty, or its length and the line fit the limit |
| AuditLaws.FullMeansRotation | crates/bugwarden/src/audit.rs:1460-1468 | without failed writes or syncs, otherwise every file first moves up one slot and the line stands alone in the live one, or the rotation fails and the line is not written |
| AuditLaws.SizeNeverOver | crates/bugwarden/src/audit.rs:1492-1507 | over every run the size counted is at most the open file's |
| AuditLaws.SizeIsTheFiles | crates/bugwarden/src/audit.rs:1492-1507 | without failed writes or syncs it is the open file's |
| AuditLoss.RecordConserves | crates/bugwarden/src/audit.rs:1370-1430 | one call reports or keeps pending every loss it found or incurred, saturation losing counts only |
| AuditLoss.LossesAreConserved | crates/bugwarden/src/audit.rs:1370-1430 | over every run, calls that failed plus losses taken equal losses reported by acknowledged gaps plus those pending, absent saturation |
| AuditLoss.MirrorHolds | crates/bugwarden/src/audit.rs:1228-1234 | between calls the gate's flag says exactly whether losses are pending |
| AuditLoss.WriteEventOnFile | crates/bugwarden/src/audit.rs:1434-1536 | an acknowledged event is the next complete line on file under the next number |
| AuditLaws.AcknowledgedIff | crates/bugwarden/src/audit.rs:1434-1536 | an event is acknowledged exactly when it was spelt, a rotation due succeeded at every step, the write and any sync asked for succeeded and the exporter took it; else the error names the first that failed |
| AuditLaws.AcknowledgedIsLast | crates/bugwarden/src/audit.rs:1370-1430 | a call that succeeds leaves its own record last on file and last with the exporter, under the number it returns |
| AuditLaws.FailureTellsWhy | crates/bugwarden/src/audit.rs:1402-1430 | a failed call leaves as pending reason a failed rotation exactly when that is what failed |
| AuditLoss.GapsNeverUnderReport | crates/bugwarden/src/audit.rs:1359-1369 | the gap records ever written out with the losses pending never account for fewer losses than there were |
| AuditLoss.GapsToBeRead | crates/bugwarden/src/audit.rs:1359-1369 | nor do the gap records a reader finds in the files, with those in rotated files since deleted, with the losses pending; one more only if a gap was glued to a live file found unfinished |
| AuditLoss.GapPrecedesRecord | crates/bugwarden/src/audit.rs:1352-1400 | a record acknowledged after losses directly follows the gap that counts them all |
| AuditLoss.ExportNeverLeads | crates/bugwarden/src/audit.rs:1508-1534 | over every run the exporter accepts in number order, and only what the file already has |
| AuditLoss.ExportedBytesAreTheRecord | crates/bugwarden/src/audit.rs:1703-1707 | the exported bytes are the record's spelling, repair newline or not |
| AuditSink.AuditSink.Open | crates/bugwarden/src/audit.rs:1263-1325 | a sink on the files found, counting the live file's size, nothing pending |
| AuditSink.AuditSink.Rename | crates/bugwarden/src/audit.rs:1564-1580 | a rename onto a free slot moves a file's bytes and the open file with it, or nothing |
| AuditSink.AuditSink.ShiftFiles | crates/bugwarden/src/audit.rs:1554-1580 | the descending rename loop, stopped by any failure, does what the recursive shift says |
| AuditSink.AuditSink.Rotate | crates/bugwarden/src/audit.rs:1538-1588 | the rotation of the real files, reopened and synced or failed at any step |
| AuditSink.AuditSink.WriteOut | crates/bugwarden/src/audit.rs:1492-1507 | the bytes of a write and a sync, whole or torn, with the size and the torn mark that go with them |
| AuditSink.AuditSink.Put | crates/bugwarden/src/audit.rs:1492-1536 | the number is spent once the file has the line, and the exporter gets the record's bytes after it |
| AuditSink.AuditSink.WriteEvent | crates/bugwarden/src/audit.rs:1432-1536 | one event, from spelling to export, with any step failing |
| AuditSink.AuditSink.AbsorbExportLosses | crates/bugwarden/src/audit.rs:1647-1668 | the exporter's losses join the count, the flag raised before the drain |
| AuditSink.AuditSink.ReportGap | crates/bugwarden/src/audit.rs:1394-1416 | losses pending are reported before anything else, and cleared only on success |
| AuditSink.AuditSink.Record | crates/bugwarden/src/audit.rs:1352-1430 | the whole call on the real files and counters, with its result |
| AuditSink.AuditSink.Failing | crates/bugwarden/src/audit.rs:1614-1645 | asked between calls, the gate is closed exactly while losses are pending here or with the exporter, or delivery is failing |
| AuditSink.SinkHealsItself | crates/bugwarden/src/audit.rs:1434-1536 | the bytes of any sink's files, from any files found and after any calls, read as one line for each recent write kept apart that left anything, in order |
| AuditGate.NextKeeps | crates/bugwarden/src/audit.rs:1228-1234 | every step of writer, delivery or gate keeps the accounting and the mirror's meaning, and un-reports nothing |
| AuditGate.InvHolds | crates/bugwarden/src/audit.rs:1370-1430 | over every interleaving every loss is with the exporter, in the writer's hands, pending or reported |
| AuditGate.MirrorIsExactAtRest | crates/bugwarden/src/audit.rs:1228-1234 | whenever the lock is free the flag is set exactly while losses are pending |
| AuditGate.ClearFlagMeansReported | crates/bugwarden/src/audit.rs:1628-1645 | a clear flag vouches for every loss incurred before the gate's peek, but for one racing the drain |
| AuditGate.ClearFlagAccounts | crates/bugwarden/src/audit.rs:1228-1234 | while the flag is clear every loss is reported, with the exporter, or racing the drain |
| AuditGate.RaceIsOne | crates/bugwarden/src/audit.rs:1649-1668 | what the gate can fall into is one race, over one and the same drained losses |
| AuditGate.ClearReadingIsWrongIff | crates/bugwarden/src/audit.rs:1628-1645 | a clear flag is read with an earlier loss unreported exactly when the peek and the reading both fall between an unannounced drain and its mirroring |
| AuditGate.OpenAnswerIsTruthful | crates/bugwarden/src/audit.rs:1614-1645 | an open answer goes back to one peek and one clear reading, and every loss before the peek had been reported unless those two fell inside one race |
| AuditGate.AnswerHasCause | crates/bugwarden/src/audit.rs:1614-1645 | every answer was given at some step: closed for losses with the exporter, the flag set or delivery failing, seen there, and open on finding none of them |
| AuditGate.OpenAnswerFoundNothing | crates/bugwarden/src/audit.rs:1614-1645 | an open answer found no losses at the exporter, then the flag clear, then delivery well, in that order |
| AuditGate.RaceExists | crates/bugwarden/src/audit.rs:1649-1668 | an interleaving with such a race in which the gate answers open too early |
| AuditPass.RecordIsAPass | crates/bugwarden/src/audit.rs:1370-1430 | a call of the sink is a pass of the gate's writer from lock to lock: same losses pending, reported and counted, same flag |

## Left out

- AuditLoss.LossesAreConserved: an equality only while the count stays below 2^64; past it the count saturates as in the code and the lemma keeps the inequality.
- AuditRotation.FilesKeepToTheLimit: covers runs without failed writes or syncs, since the size is not advanced for bytes of a write that failed; rotations may fail in any way.
- UrlScan.EmbeddedIdsExact: stated for bases that do not overlap themselves; UrlOverlap.ReadExactlyIff shows that it holds of no other.
- UrlOverlap.ReadExactlyIff: for bases no longer than a string can be in Rust, isize::MAX; so is UrlSeeAlso.ScannerFindsSeeAlsoIff.
- History.ScrubIsExact: one direction, for a URL text is dropped whole when it names one hidden bug; what holds without the condition is History.ScrubIsSound.
- CustomFields.FieldTypeCache.LookUp: one call at a time; calls that interleave are the subject of CacheSteps.
- Guard.Assess: fetches happen one after the other with one clock reading; timing is not modelled.
- Search.PageIsSlice: the pages compared are judged by one schedule of clock readings, request by request; readings that differ from call to call can move the age rules.
- AuditSink.AuditSink.Failing: one caller, asked between calls; interleaving with a call is the subject of AuditGate, with one gate reader, joined to the sink by AuditPass.
- UrlScan.EmbeddedLocalIds: texts are sequences of characters, so a scan that would slice inside a multibyte first character of the base is not modelled.
- Unicode case folding, RFC 3339 parsing, cutoff arithmetic and the tables behind debug escapes are parameters.
- The widths of row counts, sizes and record numbers; the saturation of the loss count and of a page's end is modelled.
- The texts of validation errors; only which check failed first, and on which rule.
- Policy files, TOML and JSON text, record schemas, timestamps, hashes and log output, rate-limited or not.
- HTTP, TLS, authentication, retries and the async runtime: each upstream call is a value or a failure.
- Directory creation, symlink and permission checks when opening the audit file; a rotation step succeeds or fails.
- The order of maps, except where it is observed: the first field that cannot be judged.
- The exporter's queue and delivery behind its contract of accepting, peeking, taking and reporting health.
- Choosing sinks and fail modes, the per-call audit cell, trace contexts, duplicate markers, private comments, attachments, link disclosure's batching: they would add easy members.
