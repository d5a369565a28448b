# Keymaker, modelled and proved

Keymaker inventories, audits and revokes OVHcloud API keys. This project models the parts of it whose
correctness spans several functions, and proves what they promise for every input, every run or every
interleaving. `dafny verify dfyconfig.toml` checks it.

- **Access rules** (`Glob`, `Credentials`, `Audit`, `Inspection`, `Causes`, `Breadth`, `Routes`). A rule
  path is given a declarative meaning, and the greedy matcher is proved to decide it. The audit never
  matches a path: it reasons about the text before the first star. Those answers are compared with the
  language itself, both ways, and carried up to the findings a key gets, to what each finding tells of
  the key, to what the broad finding stands in for, and to the rules the explorer makes of routes.
- **The log redactor** (`Redaction`). Which values are kept out of every log line, exactly, whatever
  else is registered and when nothing else is, and that scrubbing then settles, over nested groups of
  attributes too.
- **The account** (`Accounts`, `Revocations`, `Listings`, `Server`). The provider guards, both sweeps, the
  deletion of an application and the address editor over an API any call to which may fail, or succeed
  and lose its answer. Every session is a run of guarded writes between which anyone may change the
  account. On complete listings every such run keeps the tool's own key alive, as long as nothing done
  elsewhere ends it, and what it can do to other keys is stated exactly. What every handler answers and
  leaves behind is stated from the answers the API gives, and what revocations report is compared with
  what became of the keys.
- **Concurrent steps** (`Pool`, `Fetching`, `Catalogue`, `Refreshing`). The worker pools and the
  publishing of a refreshed catalogue, as state machines over their interleaved steps.
- **Normal forms and printers** (`Sorting`, `Catalogue`, `Twins`, `AddressList`, `Csv`, `CreateToken`,
  `BranchCounts`). The merged catalogue, the twin fingerprint, the address list, the CSV report, the
  createToken query and the branch counts, each against an independent reader or definition.
- **The demonstration account** (`DemoStore`) and **rate limits** (`Pacing`).

The results on findings hold for any list of branches under the account; the branches of the audit are
one (`Inspection.TheBranchesAreSensitive`). `Text` and `Net` hold the string operations and the
addresses the rest is written with.

## Where the code and what is said of it part

For each of these a lemma says exactly when the promise holds, and the lemma named first, where two
are, gives an input on which it does not.

- A rule that has a star and ends in a slash is said to reach branches in which it covers no call
  (`Audit.SlashOverstatesReach`). The reach test is exact on every branch if and only if the rule path
  does not end in a slash or is refused for it (`Audit.ReachesExactOnEveryBranch`).
- `/m*` covers the whole account and is not called broad (`Inspection.BreadthIsNotMonotone`). Of the
  rules that cover the account, exactly those starting with it escape
  (`Inspection.BroadAmongAccountRules`).
- The broad finding is raised in place of those of the branches, since a broad rule is said to reach
  them all. It does so by its path only: GET on everything hides POST on the users of the account
  (`Breadth.ReadingHidesWriting`). Nothing is hidden, on any list of branches, if and only if each rule
  that can reach below the account has the method of a broad one (`Breadth.HidesNothingExactly`, and for
  one list `Breadth.NothingIsHiddenExactly`).
- A registered value can come back around the placeholder (`Redaction.BracketValueComesBack`). In every
  company it is kept out exactly when it cannot overlap it (`Redaction.KeptOutExactly`), and alone
  exactly when `Redaction.KeptOutAloneExactly` says so, which is less (`Redaction.CompanyMatters`).
- An application that gained a key since the listing is not to be deleted. The listing is read before
  the deletion is sent, so a key issued elsewhere in between ends with it
  (`Accounts.AKeyIssuedMeanwhileEnds`); the guard misses exactly the keys issued in between
  (`Accounts.DeletionMissesExactly`, `Accounts.NamedApplicationsAreSafeExactly`).
- Both ways of deleting an application accept a partial listing. One unread key is enough to end the
  tool (`Accounts.OneUnreadKeyEndsTheTool`); every run is safe if and only if listings are complete
  (`Accounts.RunsNeedCompleteListings`, `Accounts.GuardNeedsCompleteListing`).
- An error that wraps "not found" is taken for a key already gone, also when it was the key in use that
  the API did not know. The sweep then counts a key as revoked with nothing sent
  (`Revocations.SweepMiscounts`), which needs the key in use to be unknown at the start
  (`Revocations.SweepIsTrueExactly`), and the single handler answers that the key was already revoked,
  exactly then (`Revocations.SingleAnswerIsTrue`).
- Rules with a space in the method, or with a line break, can give two different keys one fingerprint
  (`Twins.ReadAtItsFirstSpace`, `Twins.LineBreaksCollide`), and only they can
  (`Twins.MethodsToldApart`, `Twins.KindsToldApart`).
- A documented route with a star of its own has a rule that covers more than its calls, and no other
  route has (`Routes.RulePathIsExact`).
- An empty row of the report reads back as a row of one empty field; all reports without one read back
  as they are (`Csv.ReportReadsBack`).
- A branch name without a slash opens a list and has no count; all others agree
  (`BranchCounts.CountsAgreeWithLists`).
- A wait cut short by the deadline of the request rather than of the caller leaves no status, so a read
  goes on from it and can pause once more than its refusals allow (`Pacing.OneCutAddsUp`), and not
  otherwise (`Pacing.PausesAreBoundedExactly`).

## Model

| member | source | states |
|---|---|---|
| `Glob.MatchPath` | internal/credential/credential.go:171-193 | The greedy matcher accepts a path exactly when it is in the language of the pattern, a star being any run of characters, empty runs and slashes included |
| `Glob.LeftmostLosesNothing` | internal/credential/credential.go:184-191 | Taking the leftmost place of a middle piece never turns a match into a refusal |
| `Glob.PiecesOfPattern` | internal/credential/credential.go:174-182 | Cutting a pattern at its stars and reading the pieces in order keeps its whole meaning, patterns without a star included |
| `Credentials.Permits` | internal/credential/credential.go:83-90 | A call is permitted exactly when some rule is for its method, letter case aside, and has its path in its language |
| `Text.EqualFoldExactly` | internal/credential/credential.go:83-90 | Methods are the same when they differ in the case of ASCII letters alone |
| `Audit.ReachesNeverMisses` | internal/audit/audit.go:255-283 | Whatever the rule, a route of the branch that it covers is never missed by the reach test |
| `Audit.ReachedRoute` | internal/audit/audit.go:255-283 | From a rule that reaches a branch and does not end in a slash, builds a route of that branch, not ending in a slash, that the rule covers |
| `Audit.ReachesDecides` | internal/audit/audit.go:255-283 | A rule covers a call under a branch exactly when the reach test says so and the rule does not end in a slash |
| `Audit.ReachesExactOnEveryBranch` | internal/audit/audit.go:266-276 | The reach test is exact on every branch if and only if the rule path does not end in a slash or is refused for it: no star, and more than the slash alone |
| `Audit.SlashOverstatesReach` | internal/audit/audit.go:268-276 | GET /me/*/ is said to reach /me/bill and covers no call there |
| `Inspection.HasBroadRule` | internal/audit/audit.go:178-192 | True exactly when a rule with a star has nothing, or /me, before it, one closing slash aside |
| `Inspection.BroadShape` | internal/audit/audit.go:181-189 | A rule path is broad exactly when it starts with a star, /*, /me* or /me/ and a star |
| `Inspection.BroadReachesEveryBranch` | internal/audit/audit.go:181-189 | The path of a broad rule reaches every branch under the account, so that its method alone decides whether the rule does |
| `Inspection.BroadAmongAccountRules` | internal/audit/audit.go:173-192 | Of the rule paths that cover everything under the account, all are broad but those that start with /m and a star |
| `Breadth.AccountRulesExactly` | internal/audit/audit.go:173-192 | A rule path covers everything under the account if and only if it ends in a star and matches the account path alone |
| `Inspection.BreadthIsNotMonotone` | internal/audit/audit.go:186-189 | /m* covers all that /me/* covers and is not called broad, while /me/* is |
| `Breadth.ABroadRuleHidesAScopedOne` | internal/audit/audit.go:107-117 | A broad rule whose method a branch does not admit, beside a scoped one that reaches it: the broad finding is raised, that of the branch is not, and no broad rule of the key reaches the branch |
| `Breadth.ReadingHidesWriting` | internal/audit/audit.go:39-44 | GET on everything beside POST /me/identity is such a key: account control is not raised |
| `Breadth.NothingIsHiddenExactly` | internal/audit/audit.go:107-117 | For a list of branches the broad finding hides none that some rule reaches if and only if each of these admits the method of a broad rule |
| `Breadth.HidesNothingExactly` | internal/audit/audit.go:39-44 | On every list of sensitive branches at once it hides none if and only if each rule that can reach below the account has the method of a broad one |
| `Inspection.ReachesAny` | internal/audit/audit.go:293-305 | True exactly when a branch that raises the finding is reached by one of the rules |
| `Inspection.Inspect` | internal/audit/audit.go:93-154 | The findings of a credential and their order, for every state, date, rule and address list, nothing for one that is not examined |
| `Inspection.RaisedOnItsGrounds` | internal/audit/audit.go:93-154 | Each finding is raised exactly when the credential is examined and has the grounds for it, code by code, never and last use counting only once it is validated |
| `Inspection.FindingsAreDetermined` | internal/audit/audit.go:93-154 | The grounds, the order and the severities leave exactly one list, the one reported |
| `Causes.OnlyLiveKeysAreExamined` | internal/audit/audit.go:86-105 | Expired and refused keys and those of deleted applications have no findings; waiting for validation is found exactly on a pending key whose application was not deleted |
| `Causes.OpenAddressesAreReported` | internal/audit/audit.go:118-120 | No address restriction is found exactly when the key is examined and its list is empty or one of its blocks holds every address of its family |
| `Causes.MissingDescriptionsAreReported` | internal/audit/audit.go:142-144 | No description is found exactly when the key is examined and nothing is left of it once white space at both ends is taken off |
| `Causes.DatesAreReported` | internal/audit/audit.go:121-140 | The four findings about dates, in days: seven to the expiry, thirty without a use, a hundred and eighty since the last one, the last two on validated keys alone |
| `Causes.WritesAreCounted` | internal/audit/audit.go:223-253 | A branch of writes counts POST, PUT and DELETE in any letter case and no other method, and one without methods counts all |
| `Net.HoldsItsFamilyExactly` | internal/audit/audit.go:285-290 | A block holds every address of its family if and only if its length is zero |
| `Net.InPrefixExactly` | internal/httpapi/addresses.go:130-158 | A block holds the addresses of its family from its first one on, as many as its free bits count, and no others |
| `Inspection.TheBranchesAreSensitive` | internal/audit/audit.go:223-253 | All branches of the audit lie under the account and raise one of the two findings, which is what the results on any list of branches ask of it |
| `Inspection.SensitiveCallsAreReported` | internal/audit/audit.go:93-119 | A permitted call under a sensitive branch raises the finding of that branch or the broad one; a broad rule of the key reaches that branch if and only if the branch admits the method of a broad rule |
| `Inspection.BranchFindingsAreExact` | internal/audit/audit.go:93-119 | When no rule has a star and ends in a slash, a branch finding is raised exactly when a call under such a branch is permitted and the broad finding is not raised |
| `Routes.RulePathCoversEveryCall` | internal/catalog/schema.go:21-22 | However the placeholders of a documented route are filled in, the rule made of it covers the call |
| `Routes.RulePathCoversOnlyCalls` | internal/catalog/schema.go:135-143 | A path the rule covers is a call of the route, the values being read off it, where the route has no star of its own |
| `Routes.RulePathIsExact` | internal/catalog/schema.go:135-143 | The rule covers exactly the calls of its route if and only if the route has no star outside its placeholders |
| `Routes.ParameterisedMeansWidened` | internal/catalog/schema.go:145-149 | A route names a parameter exactly when its rule differs from it |
| `Routes.LeftmostNameBecomesAStar` | internal/catalog/schema.go:135-143 | The leftmost name in braces, with no slash and no brace in it, becomes a star; what is in front of it stays, and what is behind it is treated alike |
| `Routes.KeptWithoutNamesExactly` | internal/catalog/schema.go:21-22 | A route is left as it is if and only if it holds no such name |
| `Routes.RouteRuleReachesItsBranch` | internal/audit/audit.go:255-283 | The rule made of a route under a brace-free branch reaches that branch |
| `Routes.ExplorerRuleIsReported` | internal/audit/audit.go:93-119 | A key holding such a rule, for a method the branch admits, gets the finding of the branch or the broad one |
| `Redaction.Redactor.Add` | internal/logging/redact.go:31-49 | Each new value is put behind those before in its turn, once, and the empty one never is |
| `Redaction.RegisteredInOrder` | internal/logging/redact.go:31-49 | Registering two lists one after the other is registering them as one, value by value |
| `Redaction.Redactor.Scrub` | internal/logging/redact.go:51-59 | One pass per value in the order of registration, each replacing every occurrence from the left |
| `Redaction.ScrubbedInOrder` | internal/logging/redact.go:51-59 | Each value is replaced in what the one before it left |
| `Redaction.ReplaceAtFirst` | internal/logging/redact.go:55-57 | The first occurrence becomes the placeholder, what is in front of it stays and what is behind it is replaced in turn |
| `Redaction.ReplacementIsClean` | internal/logging/redact.go:55-57 | A replacement never creates an occurrence of a value that cannot overlap the placeholder, not even around one inserted before |
| `Redaction.ScrubIsClean` | internal/logging/redact.go:51-59 | Such a value occurs nowhere in what is logged, whatever else is registered |
| `Redaction.ScrubSettles` | internal/logging/redact.go:51-59 | When all values are of that kind the result is clean, scrubbing it again changes nothing, and a text is changed exactly when it is not clean |
| `Redaction.KeptOutExactly` | internal/logging/redact.go:20-59 | A value is kept out of every text under every registration if and only if no end of it lines up with the placeholder, inside it or across an edge |
| `Redaction.BracketFreeValues` | internal/logging/redact.go:20-59 | For a value without square brackets that means exactly that it is no part of the word redacted |
| `Redaction.BracketValueComesBack` | internal/logging/redact.go:55-57 | ]x, registered alone, is still in the scrubbed form of ]xx |
| `Redaction.KeptOutAloneExactly` | internal/logging/redact.go:51-59 | A value registered alone is kept out of every text if and only if it starts nowhere in a placeholder and every beginning of it that a placeholder could complete, put in front of it, shows it earlier |
| `Redaction.CompanyMatters` | internal/logging/redact.go:51-59 | [[ is kept out of every text when registered alone and not in every company |
| `Redaction.AttributesAreClean` | internal/logging/redact.go:96-116 | After scrubbing, no key and no rendered leaf holds the value, at any depth of groups |
| `Redaction.AttributesAreScrubbed` | internal/logging/redact.go:96-116 | Every key and every rendered leaf is logged scrubbed, in its order and at its depth, a leaf whose text stays keeping its type |
| `Redaction.CleanAttributesAreKept` | internal/logging/redact.go:96-116 | An attribute that leaks nothing keeps its values as they are, numbers included |
| `Accounts.CompleteListing` | internal/httpapi/inventory.go:199-209 | A listing that left nothing out is the list of keys itself |
| `Accounts.WritesReachTheirTarget` | internal/legacy/provider.go:117-149 | A deletion takes its key and no other, new addresses replace those of their key and nothing else, and an application goes with its keys stopped and every other key as it was |
| `Accounts.WriteKeepsAlive` | internal/legacy/provider.go:184-196 | A guarded write leaves the own key listed, its application undeleted and its addresses empty or holding the address the tool is seen from |
| `Accounts.RunKeepsAlive` | internal/legacy/provider.go:127-196 | Over every run of guarded writes on complete listings, any of them failing or not, and of any changes made elsewhere that do not end it, the own key stays in that state |
| `Accounts.DeletionMissesExactly` | internal/legacy/provider.go:121-149 | Over every run, an application deleted on a complete listing, however old, is named by a key of the account if and only if one was issued on it elsewhere since the listing was read and is still there |
| `Accounts.OnlyItsOwnDeletionEndsAKey` | internal/legacy/provider.go:121-149 | On complete listings a write of the tool changes a key in nothing but its addresses, unless it deletes that key or an application on which a key was issued elsewhere since the listing |
| `Accounts.AKeyIssuedMeanwhileEnds` | internal/legacy/provider.go:121-149 | A key issued elsewhere between a complete listing and the deletion decided on it ends with its application, in a run that keeps the own key |
| `Accounts.NamedApplicationsAreSafeExactly` | internal/legacy/provider.go:121-149 | No run on complete listings deletes an application that a key names at that moment, if and only if no key is issued elsewhere |
| `Accounts.GuardNeedsCompleteListing` | internal/legacy/provider.go:138-143 | The guard protects the keys of every account, with identifiers of their own, that a listing can come from if and only if the listing left none out |
| `Accounts.OneUnreadKeyEndsTheTool` | internal/legacy/provider.go:127-149 | A listing that read one key of two, and not the own one, lets the own application go, and the own key with it |
| `Accounts.RunsNeedCompleteListings` | internal/legacy/provider.go:127-196 | Every run of guarded writes keeps the own key alive if and only if no listing it goes by may leave a key out |
| `Listings.ListingExactly` | internal/legacy/provider.go:251-309 | A listing is usable exactly when nothing was refused and something was read or there is nothing to read; it is then the keys answered for, in order, and counts all others |
| `Revocations.SingleAnswerIsTrue` | internal/httpapi/revoke.go:38-95 | Done and already revoked are true exactly unless the API, asked which key is in use, says it knows none while the key to revoke is there: nothing is sent then, and it is called already revoked |
| `Revocations.AnswersByCause` | internal/httpapi/revoke.go:79-110 | The answer of the single handler, from what the API said of the key in use and of the deletion |
| `Revocations.SweepReportsByCause` | internal/httpapi/sweep.go:56-81 | The report on every key from what the API said at its turn: none for a deletion that went through or found nothing to delete, and a refusal, a lost answer, a missing rule, the own key and an unknown identity each under its own code |
| `Revocations.SweepIsTrueExactly` | internal/httpapi/sweep.go:37-84 | Every key reported as revoked is gone, whatever the API answers, if and only if the key in use was known at the start or no key is due |
| `Revocations.SweepMiscounts` | internal/httpapi/sweep.go:68-80 | One expired key, the key in use not told at the start and unknown at the second try: the key is reported as revoked, is still listed, and nothing was sent |
| `Revocations.KnownSweepIsTrue` | internal/httpapi/sweep.go:86-94 | With the key in use known at the start, every key reported as revoked is gone |
| `Revocations.SweepKeepsOthers` | internal/httpapi/sweep.go:55-81 | Whatever the API answers, only keys of the set go, never the one in use, and each of them is reported on in order |
| `Revocations.SweepSends` | internal/httpapi/sweep.go:56-68 | One deletion is sent for each key the offer allows where the key in use is known, and for each at whose turn it is told where it is not, the key in use aside; nothing else is sent |
| `Revocations.InactiveIdsAre` | internal/httpapi/sweep.go:96-98 | The keys swept are exactly the listed ones that are expired or refused |
| `Revocations.InactiveIdsInOrder` | internal/httpapi/sweep.go:56-60 | They are taken in the order of the listing |
| `Server.Session.List` | internal/httpapi/inventory.go:199-209 | A listing is what the answers to the question for the identifiers and to that for each key make of the account |
| `Server.Session.Get` | internal/legacy/provider.go:54-62 | The first key with the identifier, not found exactly when the API answers and lists none |
| `Server.Session.Send` | internal/legacy/provider.go:187-196 | The account, the errors and the record after a write are what its answer makes of it: carried out, refused, unknown target, or an answer lost either way |
| `Server.Session.ChangeElsewhere` | internal/legacy/provider.go:121-126 | Between two calls the account may become any other, with no write of the tool |
| `Server.Session.RevokeAgainst` | internal/legacy/provider.go:187-196 | The key in use is refused with nothing sent, and one deletion goes out for any other |
| `Server.Session.Revoke` | internal/legacy/provider.go:173-182 | Nothing is sent without an identity or for the key in use, and one deletion goes out otherwise |
| `Server.Session.RevokeOnRequest` | internal/httpapi/revoke.go:38-110 | The account, the writes and the answer of the single handler, and exactly when that answer is true |
| `Server.Session.SweepOne` | internal/httpapi/sweep.go:56-81 | The account and the write are what the answers at the turn of one key make of them, and the code that of its errors |
| `Server.Session.RevokeInactive` | internal/httpapi/sweep.go:37-84 | For every answer of the API: the error of the listing or none, one report for each inactive key of it, each following from the answers at its turn, the writes and the account; none but those keys can go |
| `Server.Session.DeleteApplicationNow` | internal/legacy/provider.go:127-133 | Without a listing nothing is sent and its error comes back; an application named in the listing of the moment is refused; any other takes exactly one deletion and comes to what its answer makes of it |
| `Server.Session.DeleteApplicationAgainst` | internal/legacy/provider.go:138-149 | An application named by a key of the listing is refused with nothing sent; any other takes one deletion and comes to what its answer makes of it |
| `Server.Session.RevocationOffer` | internal/httpapi/revoke.go:114-127 | Refused for the key in use, refused for want of a rule covering the deletion, offered otherwise and when nobody knows which key is in use |
| `Server.CountUses` | internal/httpapi/applications.go:222-225 | The number of listed keys that name each application |
| `Server.Session.DeletionOffer` | internal/httpapi/applications.go:118-131 | In use when a key is counted, refused for want of a rule, offered otherwise |
| `Server.Session.DeleteOne` | internal/httpapi/applications.go:238-252 | One application: refused for want of a rule, no code when its deletion went through, and gone already, refused and lost answers each under their own code |
| `Server.Session.DeleteKeyless` | internal/httpapi/applications.go:207-258 | For every answer of the API: the applications gone are exactly those no listed key names, that the rules cover and whose deletion was carried out; one report for each due, following from its answer; one deletion for each the offer allows; and on a complete listing no key is touched |
| `Server.UnusedAre` | internal/httpapi/applications.go:235-238 | The applications swept are exactly the listed ones that no listed key names |
| `Server.UnusedInOrder` | internal/httpapi/applications.go:235-238 | They are taken in the order they are listed |
| `Server.Session.EditAddresses` | internal/httpapi/addresses.go:109-176 | Each verdict is given exactly on its grounds, and the write is sent exactly when it is asked for, the key can be read and used and, for the key in use, there is no restriction or a looked-up address inside it; accepted when it is not asked for or was carried out |
| `Server.Session.KeepsItsOwnKey` | internal/legacy/provider.go:127-196 | Whatever was called in whatever order on complete listings, and whatever was done elsewhere short of ending it, the own key is still alive |
| `Pool.StepKeepsInv` | internal/legacy/provider.go:264-287 | Every step of any interleaving keeps each index untouched, in flight at one worker, or answered, with no more workers than eight or the number of indices |
| `Pool.SlotsAreWrittenOnce` | internal/legacy/provider.go:270-280 | An answer lands in an empty slot and no step touches a full one |
| `Pool.StepMakesProgress` | internal/legacy/provider.go:264-287 | Every step brings a bounded measure down |
| `Pool.NoDeadlock` | internal/legacy/provider.go:283-287 | A pool that has not finished can always take a step |
| `Pool.Fetch` | internal/legacy/provider.go:264-287 | Whatever step is taken at each turn, the pool ends with the answer for every index in its place |
| `Fetching.EveryIdentifierCounts` | internal/legacy/provider.go:289-298 | Read, revoked and unreadable add up to the identifiers listed |
| `Fetching.FetchAll` | internal/legacy/provider.go:259-309 | The outcome depends on the answers alone: refused or empty fails the listing, other failures shorten and count it |
| `Fetching.OutcomeExactly` | internal/legacy/provider.go:289-309 | A listing fails exactly when a call was refused or when calls failed and no key was read, is short by the number of failed calls when others failed, and otherwise complete; it holds exactly the keys read |
| `Fetching.UsableListingsArePartial` | internal/legacy/provider.go:251-309 | With truthful answers a complete listing is exactly the keys present, in order, and a short one leaves out at most as many as it counts |
| `Fetching.ApplicationsAreReadAsTheyAre` | internal/legacy/provider.go:358-388 | With truthful routes an application is shown as it is where both answered, marked as deleted or as somebody else's exactly when it is; otherwise as one of them or the key tells of it, never as dead or foreign when it is not |
| `Fetching.Representatives` | internal/legacy/provider.go:318-327 | One key for each application, the first one, in order |
| `Fetching.ResolveApplications` | internal/legacy/provider.go:317-356 | Every key gets what was read through the first key of its application, and one that names none keeps what it has |
| `Fetching.ListingsShowApplicationsAsTheyAre` | internal/legacy/provider.go:317-388 | Over a whole listing, with truthful routes, keys of one application show the same one, under its own identifier, never dead or somebody else's when it is not, and just as it is where both routes of its first key answered |
| `Catalogue.CollectRoute` | internal/catalog/schema.go:106-114 | After each route the collected operations are the first seen of every path and method |
| `Catalogue.FirstExactly` | internal/catalog/schema.go:106-114 | The operation kept is the one at the first place that has the path and the method, and none when no place has |
| `Catalogue.Merge` | internal/catalog/schema.go:103-124 | Paths strictly ascending, methods strictly ascending within each, and the first-seen operation for exactly the pairs the branches hold |
| `Catalogue.Assemble` | internal/catalog/schema.go:117-123 | In whatever order the collected paths are taken |
| `Catalogue.MergeIsUnique` | internal/catalog/schema.go:100-124 | There is one such list, so neither the order of the map nor the stability of the sort matters, and merging it again gives it back |
| `Catalogue.FetchCatalogue` | internal/catalog/remote.go:127-169 | A catalogue comes out exactly when every branch answered, and is then the merge of all of them |
| `Catalogue.CompleteListsEverything` | internal/catalog/remote.go:154-169 | A complete catalogue lists an operation exactly when some branch does |
| `Catalogue.FirstBranchIsKept` | internal/catalog/remote.go:154-169 | Of what several branches list, a complete catalogue has what the first of them says |
| `Sorting.SortedIsCanonical` | internal/audit/audit.go:366-372 | Sorting forgets nothing but the order |
| `Sorting.LessExactly` | internal/audit/audit.go:366-372 | A text comes first exactly when it is a proper beginning of the other or smaller in the first character they differ in |
| `Refreshing.StepKeepsInv` | internal/catalog/remote.go:82-112 | Every step of refreshes and readers keeps the catalogue the fallback marked dated or a complete one, never back from live, and the first closing of ready final |
| `Refreshing.RunKeepsInv` | internal/catalog/remote.go:66-112 | Over every run ready is closed at most once and the fallback never changes |
| `Refreshing.LiveStays` | internal/catalog/remote.go:97-112 | Once live, live at every later moment |
| `Refreshing.ServedLiveAfterSuccess` | internal/catalog/remote.go:82-112 | Once a successful refresh closed ready, every read after it gets a live and complete catalogue |
| `Refreshing.ServedLiveAfterAnySuccess` | internal/catalog/remote.go:97-112 | Once any refresh returned successfully, every read after it is live |
| `Refreshing.ReadersWait` | internal/catalog/remote.go:82-95 | A reader goes on only when a refresh ended or its own wait ran out |
| `Twins.LineIsInjective` | internal/audit/audit.go:363-365 | Rules whose methods hold no space print alike exactly when they are the same rule, letter case of the method aside |
| `Twins.FoldedExactly` | internal/audit/audit.go:363-365 | Rules are one when their paths are and their methods differ in letter case alone |
| `Twins.MethodsToldApart` | internal/audit/audit.go:364 | The line of a rule gives it back among rules with space-free methods, for every path, if and only if its method has no space |
| `Twins.FingerprintsAgree` | internal/audit/audit.go:358-375 | Two fingerprints are equal if and only if application, rules as a multiset and addresses as a multiset are |
| `Twins.KeysWithAMethodToldApart` | internal/audit/audit.go:358-375 | Keys holding a method beside plain ones are told from every plain key they differ from if and only if the method has no space |
| `Twins.LineBreaksCollide` | internal/audit/audit.go:374 | Any rule with two blocks prints like the rule whose path goes on with the first block on the next line |
| `Twins.KindsToldApart` | internal/audit/audit.go:358-375 | Equal fingerprints mean equal grants for all keys of a kind if and only if the kind allows neither spaces in methods nor line breaks |
| `Twins.MarkTwins` | internal/audit/audit.go:336-356 | An identifier is marked exactly when another compared credential has the fingerprint of one with it |
| `Twins.MarkedTwinsShareTheirGrants` | internal/audit/audit.go:326-356 | With distinct identifiers a credential is marked if and only if another examined one has the same non-zero application, rules and addresses |
| `AddressList.MaskingDoesNotDisguise` | internal/httpapi/addresses.go:221-225 | Clearing host bits never turns a block into an IPv4-mapped one |
| `AddressList.Is4In6Exactly` | internal/httpapi/addresses.go:220-233 | An IPv4 address in disguise is one from ::ffff:0.0.0.0 to ::ffff:255.255.255.255, and is undone by its last 32 bits |
| `AddressList.ReadAddressIsFaithful` | internal/httpapi/addresses.go:220-233 | An entry read is masked, unmapped, and holds exactly the addresses the entry denotes |
| `AddressList.ReadAddressExactly` | internal/httpapi/addresses.go:220-233 | Refused are exactly blocks in disguise, addresses with a zone and what is neither; a block keeps its length and an address becomes a block of itself |
| `AddressList.FieldsExactly` | internal/httpapi/addresses.go:182-188 | A line is cut at every comma, semicolon, space, tab and line break, and what has none in it is one entry unless it is empty |
| `AddressList.EntriesInOrder` | internal/httpapi/addresses.go:182-188 | The entries are those of the lines, in order |
| `AddressList.TooManyExactly` | internal/httpapi/addresses.go:189-194 | A list is refused for its number exactly beyond sixty-four entries, and otherwise judged entry by entry |
| `AddressList.ReadAddresses` | internal/httpapi/addresses.go:182-218 | The outcome for everything typed: too many, the first entry refused and why, or the blocks |
| `AddressList.RefusalNamesTheFirst` | internal/httpapi/addresses.go:197-212 | The list is accepted exactly when every entry is, and a refusal names the first one that is not, with the reason that entry has |
| `AddressList.AcceptedBlocks` | internal/httpapi/addresses.go:196-217 | Blocks are distinct, masked, of non-zero length and no more than the entries |
| `AddressList.AcceptedUnion` | internal/httpapi/addresses.go:178-218 | Together they hold exactly the addresses the entries denote |
| `AddressList.ShownListIsReadBack` | internal/httpapi/addresses.go:129-132 | Printed and read again, the list is unchanged, and it has at most 64 blocks |
| `Csv.FieldReadsBack` | internal/web/static/app.js:39-43 | A cell read by section 2 of RFC 4180 gives the guarded text back and stops at the separator |
| `Csv.QuotedExactly` | internal/web/static/app.js:42 | A cell stands in quotes exactly when its text holds a comma, a quote or a line break |
| `Csv.ReportReadsBack` | internal/web/static/app.js:1718 | The whole report reads back as the guarded cells, row by row, if and only if no row is empty |
| `Csv.NoFieldIsAFormula` | internal/web/static/app.js:36-41 | No field read back starts with a formula character: each is its cell, behind one quote exactly where the cell would start with one |
| `CreateToken.CreateTokenQuery` | internal/ovh/api.go:315-323 | The query is the pairs of the rules in order, behind ampersands |
| `CreateToken.PairReadsBack` | internal/ovh/api.go:320-322 | A pair holds no ampersand of its own, and cut at its first equals sign and decoded it is the rule |
| `CreateToken.BytesAreWritten` | internal/ovh/api.go:333-345 | Which bytes of a path and of a method are written as they are, a space of a method as a plus sign, and all others as a percent sign and two digits, capitals for those above nine |
| `CreateToken.PathsAreShown` | internal/ovh/api.go:329-332 | A path of plain characters, slashes and stars is shown as it is |
| `CreateToken.QueryReadsBack` | internal/ovh/api.go:305-345 | Decoded by section 2.1 of RFC 3986, the query gives exactly the rules, duplicates included, for any bytes |
| `BranchCounts.Found` | internal/web/static/app.js:2119-2144 | The list a branch opens, cut to its budget, and its total, without a search text |
| `BranchCounts.SelectedExactly` | internal/web/static/app.js:2119-2135 | A branch opens to exactly the operations of the routes at or under it, of the method asked for and in use unless deprecated ones are asked for too |
| `BranchCounts.SelectedInOrder` | internal/web/static/app.js:2119-2135 | In the order of the catalogue |
| `BranchCounts.CountRoute` | internal/web/static/app.js:70-74 | One route counts once for every known branch that is one of its starts |
| `BranchCounts.CountBranches` | internal/web/static/app.js:65-77 | The tally of every known branch, nothing for another |
| `BranchCounts.StartsMeansInBranch` | internal/web/static/app.js:2204-2206 | A branch with a slash is a start of a path exactly when the path is at or under it |
| `BranchCounts.CountsAgreeWithLists` | internal/web/static/app.js:2075-2086 | The count of a branch is the length of the list it opens, on every catalogue and filter, if and only if the branch has a slash |
| `DemoStore.ServingKeepsHealthy` | tools/demo/main.go:91-224 | Over every run of revocations, address changes and deletions on listings of any age, identifiers stay unique, the key in use stays the same and as listed, and every key on an application of the account keeps it |
| `DemoStore.StaleListingsAreSafe` | tools/demo/main.go:202-220 | A deletion decided by an old listing is safe, since keys only ever disappear |
| `DemoStore.DeletingKeepsHealthy` | tools/demo/main.go:209-220 | Taking an application away leaves the store in order if and only if no key stands on it |
| `DemoStore.FilteredListingsAreNotSafe` | tools/demo/main.go:106-117 | A listing of validated keys lets the application of an expired key go |
| `DemoStore.InventedIsHealthy` | tools/demo/main.go:229-305 | Whatever is said of its keys and applications, the invented account has ten identifiers for ten keys, and every application an own key needs |
| `DemoStore.Store.List` | tools/demo/main.go:106-117 | Every key, or exactly those of one status |
| `DemoStore.Store.Get` | tools/demo/main.go:119-129 | A listed key with the identifier, or none when there is none |
| `DemoStore.Store.RevokeAgainst` | tools/demo/main.go:139-152 | The key in use is refused, a listed one goes, any other is not found, and the store stays in order |
| `DemoStore.Store.Revoke` | tools/demo/main.go:135-137 | As above, with the key in use as the store holds it |
| `DemoStore.Store.SetAddresses` | tools/demo/main.go:172-187 | The addresses change in the list and, for the key in use, beside it |
| `DemoStore.Store.DeleteApplicationAgainst` | tools/demo/main.go:206-220 | Refused, gone or not found by any listing read before, and the store stays in order |
| `DemoStore.Store.DeleteApplication` | tools/demo/main.go:198-204 | As above, on a listing of the moment |
| `DemoStore.PadIsHealthy` | tools/demo/main.go:311-357 | However many keys are added under the identifiers of the loop, whatever is said of them, the store stays in order, grown by those keys and one application a dozen |
| `DemoStore.Store.Pad` | tools/demo/main.go:311-357 | The loop adds exactly those, and the key in use stays |
| `Pacing.Delay` | internal/ovh/pacing.go:53-69 | The wait is between zero and the ceiling for every header and is what the header asks for within them, in arithmetic of 64 bits |
| `Pacing.AskedExactly` | internal/ovh/pacing.go:53-69 | A header of digits asks for so many seconds, whatever white space is around it; one that is no number for the time until its date, and one that is neither for the time to fall back on |
| `Pacing.DelaysWouldWrap` | internal/ovh/pacing.go:59-64 | Multiplied out first, a delay comes out as another one exactly beyond the seconds that 64 bits can count in nanoseconds |
| `Pacing.RoundTrip` | internal/ovh/pacing.go:36-51 | Every outcome of one send, exactly: an answer refused for its rate, and no other, is waited for, what it asks for within ten seconds, a second when it does not say, or until the context ends |
| `Pacing.Paced` | internal/ovh/api.go:141-147 | Sent until an answer is not a refusal for the rate, or the attempts are used up |
| `Pacing.WriteActsAtMostOnce` | internal/ovh/api.go:136-147 | Of the sends of a write, at most as many as attempts, only the last can have been carried out |
| `Pacing.Get` | internal/ovh/api.go:114-134 | A second round exactly when no status came back, the caller waits and goes on waiting |
| `Pacing.ReadIsBounded` | internal/ovh/api.go:114-147 | Twice the attempts bound the sends of a read, one fewer its refusals for the rate, and as many ceilings and the retry delay its pauses, unless it goes on from a wait cut short: then one ceiling more |
| `Pacing.ClientReadIsBounded` | internal/ovh/pacing.go:13-21 | With the four attempts, the ten seconds and the half second of the client, and no wait cut short: eight sends, seven refusals, seventy seconds and a half |
| `Pacing.ClientBoundsAreReached` | internal/ovh/pacing.go:13-21 | A read reaches all three of those bounds |
| `Pacing.PausesAreBoundedExactly` | internal/ovh/api.go:114-147 | That bound without the ceiling more holds for every read if and only if no wait may be cut short |
| `Pacing.OneCutAddsUp` | internal/ovh/api.go:119-133 | With one wait cut a nanosecond short, the ceiling more is reached |

## Left out

- HTTP, JSON, cookies, headers, routing and log output: handlers keep the order of their checks and of their calls to the provider.
- The OVHcloud SDK, request signing, clocks and the lookup of the public address: their outcomes are parameters or free choices.
- `Provider.Retire`, in the real and in the demonstration account: it ends the key in use on purpose, so no run includes it.
- Letter case outside ASCII: methods are compared and raised to upper case letter by letter in ASCII.
- The text of addresses: parsing and printing are a pair of functions. The list that is read back assumes that what is printed holds no separator and parses as what was printed, the fingerprint that different blocks print differently on one line and without a space.
- Twins.FingerprintsAgree: the methods of the keys compared hold no space and no line break, their paths no line break.
- Routes.ExplorerRuleIsReported: states that the branch has no brace as a condition; none of the listed branches has one.
- Accounts.RunKeepsAlive: assumes that the own key is alive at the start and nothing done elsewhere ends it, that the address the tool is seen from does not change during the run, and that listings used for deleting applications left no key out.
- Changes of the account elsewhere fall between the calls of a session, not inside one, so a sweep runs against an account only it changes; the runs of `Accounts` have them at any step.
- Server.Session.EditAddresses: takes the blocks already read from the request; reading them is `AddressList`.
- Server.Session.List: answers with the keys at one moment, where the source reads the identifiers first and each key later; `Fetching` covers what becomes of each answer.
- The applications listed for the sweep are any, those of the account or not, with no count of the unread ones.
- Mutexes of the redactor, the remote catalogue and the demonstration account: each guarded section is one step.
- Values that resolve lazily in log attributes: an attribute is the value it resolves to, rendered as a text or a group.
- The time a fetched catalogue carries, the delays between refreshes and the attempt timeout: a refresh begins at any moment and fails or succeeds.
- `parseIndex` and `parseSchema`: a branch answers with its routes or not at all.
- The search text, the memo and the drawing of the explorer list, and the rest of the interface.
- `Surplus` and `Summarise` of the audit: membership and counting over one list, easy members.
- The names, rules, addresses and dates of the invented keys and applications: any.
- Saturation of time differences in the audit: moments are unbounded integers; `Pacing` keeps the 64 bits of waits.
- Pacing.ReadIsBounded: counts the whole retry delay for a read that goes on, and none for one whose caller leaves during it.
- The rows of the report are any cells, not those of one account.
- Configuration files, tokens, the content security policy and start-up.
