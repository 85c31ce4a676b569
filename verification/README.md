# Prohibitorum: verified models of access rules, limits and build partitioning

Prohibitorum is an identity provider. This project models the parts of it that carry real
logic and proves what they guarantee for every input, every run or every reachable state:

- **Group rules** (`Paths`, `Rules`, `RuleLaws`): the bounded rule language. The validator, a
  recursion that threads one shared node counter, is proved equal to a reference that lists
  every node of the submitted tree in document order and reports the first offence. From that
  follow the exact accepted language, the meaning and uniqueness of the reported path, and that
  an accepted document *is* its own canonical encoding.
- **Evaluation** (`Evaluate`, `EvaluateLaws`): account facts and the explanation tree. Each
  node's result is the plain Boolean meaning of the rule node at the same position.
- **Decisions** (`Decide`, `Policy`): precedence of manual and rule groups, the exposed slugs,
  and the whole way from stored documents to the verdict.
- **Rate limiter** (`RateLimit`): the shared, lazily pruned map of fixed windows, over runs.
- **Consent tickets** (`Consent`): mint, peek and consume by many actors on a store whose
  operations may fail before or after taking effect.
- **Revoking fallbacks** (`Flow`): the guarded three-step delete under every failure.
- **Route chunks** (`Graph`, `RouteChunks`): reachability, the three-way module partition and
  the preload lists of the dashboard build.

How things are represented:

- A JSON member is absent, null or a value. Names the rule language compares with (operators,
  facts, protocols, methods, sources) are datatypes with one constructor per known name and one
  for every other text, so an unknown name is still an input. A member of `Condition` that does
  not apply holds the empty text, and the canonical encoding leaves out exactly the empty
  members, as the `omitempty` tags do.
- Time is an integer number of nanoseconds read once per call and never decreasing, as a
  monotonic clock read under the limiter's lock is. Runs are datatypes with the latest call
  outermost, so a law about a run is a law about each of its prefixes.
- Randomness (nonces), the regular expression that recognises public route modules, database
  answers and backend failures are parameters; the laws hold for all of them.
- `ValidateCondition` and its helpers carry two ghost parameters, a root text and the steps
  from it; any `path` fits them with no steps, so they restrict no caller. The loops over
  children, and the `not` branch, are methods of their own.

Two findings where the code is sharper or weaker than its description:

- The limiter's comment allows "up to 2x" at a window edge. For closed intervals of length
  `window` the exact maximum is `2*max - 1`, and it is attained for every `max` and `window`.
- A denied caller is told when to come back, but the first `max` calls after that instant use
  up the fresh window and the next one is denied again (`LateRetriesAdmittedIff`). The exact
  condition is that no live bucket exists or the open one's window holds fewer than `max` hits
  (`AdmittedAfterDenialIff`); with no late call in between it is being strictly later than the
  instant (`RetryAfterDenial`). The instant itself is still too early, although `RetryAfter`
  is then zero.

## Model

| member | source | states |
|---|---|---|
| `RateLimit.RateLimiter.Allow` | pkg/authn/ratelimit.go:52-72 | the answer is the one a never-pruning limiter fed only this key's calls gives; an untracked call is let through and changes nothing; the map then exceeds 1024 only when every bucket in it is live |
| `RateLimit.RateLimiter.RetryAfter` | pkg/authn/ratelimit.go:77-89 | the wait is the one the key's own never-pruned bucket gives, zero when there is none or it has expired |
| `RateLimit.RateLimiter.PruneLocked` | pkg/authn/ratelimit.go:91-97 | deleting while looping leaves exactly the live buckets, unchanged |
| `RateLimit.RateLimiter.constructor` | pkg/authn/ratelimit.go:39-44 | a fresh limiter has an empty run and no buckets |
| `RateLimit.RunRefinesKeyRun` | pkg/authn/ratelimit.go:52-97 | for every run and key the shared entry is the key's own bucket, except that an expired one may be gone |
| `RateLimit.AnswerRefinesKeyAnswer` | pkg/authn/ratelimit.go:52-72 | in every run pruning and other keys' traffic never change an answer |
| `RateLimit.PruneCeiling` | pkg/authn/ratelimit.go:59-66 | after a tracked call the map is over the ceiling only if every bucket is live |
| `RateLimit.HitsSinceOpening` | pkg/authn/ratelimit.go:62-71 | the counter equals the admitted hits since the bucket's opening instant, and counting from any later instant misses at least the opening hit |
| `RateLimit.KeyWindowBound` | pkg/authn/ratelimit.go:12-14 | a single-key run admits at most 2*max - 1 hits in any closed interval of length window |
| `RateLimit.WindowBound` | pkg/authn/ratelimit.go:12-14 | the same bound for a key of the shared limiter, in every run |
| `RateLimit.WindowBoundAttained` | pkg/authn/ratelimit.go:12-14 | for every max and window some run reaches the bound |
| `RateLimit.BucketBound` | pkg/authn/ratelimit.go:46-48 | a bucket's own window holds exactly as many admitted hits as its counter says, at most max |
| `RateLimit.AdmittedIff` | pkg/authn/ratelimit.go:62-71 | a call is admitted if and only if the key has no bucket, the bucket has expired, or its window holds fewer than max hits |
| `RateLimit.RetryAfterDenial` | pkg/authn/ratelimit.go:63-89 | after a denial and any early retries of the key, a call asking for no higher max is admitted if and only if it is strictly later than now plus RetryAfter |
| `RateLimit.AdmittedAfterDenialIff` | pkg/authn/ratelimit.go:62-71 | after a denial, whatever calls come in between, a call with the key's one max and window is admitted if and only if there is no live bucket or its window holds fewer than max hits |
| `RateLimit.LateRetriesAdmittedIff` | pkg/authn/ratelimit.go:62-89 | for every max, of the calls made together past the announced instant exactly the first max are admitted |
| `Paths.ItoaSpells` | pkg/appaccess/rule.go:289-291 | an index is written as a numeral without leading zeros whose decimal value is the index |
| `Paths.NumeralIsItoa` | pkg/appaccess/rule.go:289-291 | it is the only such numeral |
| `Paths.RenderReads` | pkg/appaccess/rule.go:289-291 | read from the root, every step of a path text names the child it leads to, a bracketed number being that child's index |
| `Paths.RenderInjective` | pkg/appaccess/rule.go:289-291 | different node positions have different path texts, although ".child" is a prefix of ".children[0]" |
| `Rules.ValidateCondition` | pkg/appaccess/rule.go:146-167 | result and path are those of the first offence in document order; on success the rule is the submitted tree and the shared counter has grown by exactly its size |
| `Rules.ValidateCombinator` | pkg/appaccess/rule.go:169-219 | the same verdict for an operator node already counted |
| `Rules.ValidateChildren` | pkg/appaccess/rule.go:189-196 | the loop over children reports the first offence of the list, or all children and the summed count |
| `Rules.ValidateNegation` | pkg/appaccess/rule.go:198-215 | a combinator below a not is blamed at the child, before the child is counted; otherwise the child's verdict stands |
| `Rules.ValidateFact` | pkg/appaccess/rule.go:221-265 | a leaf is accepted if and only if it has one of the four closed shapes, and comes back unchanged |
| `Rules.ParseAndValidateRule` | pkg/appaccess/rule.go:62-80 | exactly which document fault gives which reason at which path; for a sound document the first offence of the condition |
| `Rules.ScanFindsFirst` | pkg/appaccess/rule.go:146-167 | the reported offence has no offending node before it, and no report means no offending node |
| `RuleLaws.AcceptsExactlyAdmissible` | pkg/appaccess/rule.go:146-265 | a document is accepted if and only if it is version 1 and its tree is in the grammar, of height at most 8 and at most 64 nodes; the result is that tree |
| `RuleLaws.ShapeErrorIffNotClosed` | pkg/appaccess/rule.go:154-265 | the cascade of member checks passes on exactly the closed shapes |
| `RuleLaws.OffenceIff` | pkg/appaccess/rule.go:146-265 | for each of the reasons, the exact nodes it is reported for, with the bounds 8, 64 and 32 and the precedence of the checks |
| `RuleLaws.RejectionNamesFirstOffence` | pkg/appaccess/rule.go:146-219 | the error path reads as a real node's position, that node is the first offender among all nodes in document order, it deserves the reason, and no other node has that path |
| `RuleLaws.EveryNodeListed` | pkg/appaccess/rule.go:189-208 | the document order leaves no node of the submitted tree out |
| `RuleLaws.PreorderLists` | pkg/appaccess/rule.go:189-208 | each listed entry is the node its steps lead to, and entries stand in document order, so no node is listed twice |
| `RuleLaws.AcceptedDocumentIsCanonical` | cmd/prohibitorum/app_policy_commands.go:493-501 | marshalling an accepted rule, which omits every empty member, gives back the very document, so parsing it again yields the same rule |
| `RuleLaws.SurvivesIffFull` | pkg/appaccess/rule.go:24-33 | any decoded tree survives re-encoding if and only if it holds no null, empty text or empty list at any depth |
| `RuleLaws.GrammarIsFull` | pkg/appaccess/rule.go:179-233 | an accepted tree holds no empty member, the provider check being what excludes an empty provider |
| `RuleLaws.EncodingIsFaithful` | pkg/appaccess/rule.go:24-33 | no two rules share an encoding, and a rule is producible exactly when its own encoding parses back to it |
| `RuleLaws.DecodeEncode` | pkg/appaccess/rule.go:24-33 | omitting empty members loses nothing of a condition: what is omitted reads back as the empty value |
| `RuleLaws.OnlyMentionedProvidersMatter` | pkg/appaccess/rule.go:227-237 | a document accepted under one provider set is accepted under another if and only if that set holds every provider it mentions, with the same rule |
| `Evaluate.EvaluateCondition` | pkg/appaccess/decision.go:65-101 | every node of the returned tree follows from the entries below it: an all node holds iff every child entry does, an any node iff some does, a not node iff its one entry does not, a leaf iff the account has the fact; results are the Boolean meaning |
| `Evaluate.ExplainIsDerived` | pkg/appaccess/decision.go:65-150 | the same of the specified explanation, captions naming the node they explain |
| `Evaluate.EvaluateAll` | pkg/appaccess/decision.go:69-79 | every child is explained, and the result is that all of them hold |
| `Evaluate.EvaluateAny` | pkg/appaccess/decision.go:80-89 | every child is explained, and the result is that some child holds |
| `Evaluate.StringSet` | pkg/appaccess/facts.go:95-101 | the set of the listed values |
| `Evaluate.FactsFromValues` | pkg/appaccess/facts.go:70-93 | exactly a disabled account yields an error naming it; any other account its facts, each from its own column |
| `EvaluateLaws.ExplanationIsComplete` | pkg/appaccess/decision.go:61-101 | for every accepted rule the explanation lists exactly the rule's nodes in order, each with its own meaning and label, each path the validator's with "$" for "$.condition", all paths distinct |
| `EvaluateLaws.LeafMeanings` | pkg/appaccess/decision.go:103-132 | which account fact each accepted leaf asks for |
| `EvaluateLaws.OnlyLeavesMatter` | pkg/appaccess/decision.go:65-132 | two accounts that agree on a condition's leaves get the same result |
| `EvaluateLaws.AcceptedIsNegationNormal` | pkg/appaccess/rule.go:198-215 | in an accepted rule negation stands only over fact leaves |
| `EvaluateLaws.Monotone` | pkg/appaccess/decision.go:65-132 | when facts only grow and agree under every not, a true condition stays true |
| `EvaluateLaws.AcceptedRuleIsMonotone` | pkg/appaccess/rule.go:198-215 | the same for every accepted rule, outright when it has no not |
| `Decide.MatchingGroups` | pkg/appaccess/decision.go:219-227 | the matched groups, in order |
| `Decide.Matching` | pkg/appaccess/decision.go:219-227 | a group is kept if and only if it is listed and matched |
| `Decide.MatchingInPlace` | pkg/appaccess/decision.go:219-227 | matched groups keep their order and number, unmatched ones are cut out |
| `Decide.DecideOneIff` | pkg/appaccess/decision.go:153-183 | who is allowed and on what source for one manual effect, an unknown effect letting nobody in |
| `Decide.DecideGroups` | pkg/appaccess/decision.go:188-217 | many manual groups decide exactly as the single-effect engine does on the one effect they fold to, keeping the matched groups |
| `Decide.AllowedIff` | pkg/appaccess/decision.go:153-217 | who is allowed and which of the five sources is named, read off the inputs |
| `Decide.OrderAndRepetitionIrrelevant` | pkg/appaccess/decision.go:188-250 | permuting or repeating groups changes neither the verdict, the source nor the exposed slugs |
| `Decide.PrecedenceIsMonotone` | pkg/appaccess/decision.go:185-217 | inserting a matched rule or manual allow anywhere never revokes, inserting a manual deny never grants and leaves only open applications reachable |
| `Decide.ExposedGroupSlugs` | pkg/appaccess/decision.go:230-250 | a strictly increasing listing of exactly the exposed slugs, whatever order the map yields |
| `Decide.LessIff` | pkg/appaccess/decision.go:248-248 | the sort order is the dictionary order of texts |
| `Decide.IncreasingIsUnique` | pkg/appaccess/decision.go:230-250 | there is only one such listing |
| `Decide.ListingIsTheSame` | pkg/appaccess/decision.go:188-250 | permuted or repeated input groups give the identical returned listing |
| `Decide.ExposedAfterDecision` | pkg/appaccess/decision.go:188-250 | exposed slugs come from matched rule groups, plus manual groups exactly when the source is manual allow |
| `Policy.ParsePersistedRule` | pkg/appaccess/service.go:697-706 | a group of another kind gives an error with its id, a rejected document one with its id and the parser's error |
| `Policy.MatchRuleGroup` | pkg/appaccess/service.go:682-692 | the match carries the group's own id, slug and exposure and its rule's meaning for the account, or its own parse error comes back |
| `Policy.MatchRuleGroups` | pkg/appaccess/service.go:679-695 | succeeds if and only if every stored rule is admissible, matching each group by its rule's meaning; otherwise the first unsound group is reported |
| `Policy.DecidePersistedPolicy` | pkg/appaccess/service.go:671-677 | the group decision over those matches, its matching entries and exposed slugs told from the stored groups, or, exactly when a stored rule is unsound, the error of the first unsound group |
| `Policy.ExposureIff` | pkg/appaccess/service.go:671-695 | a slug is exposed if and only if an exposed stored group with it applies to the account, or the source is manual allow and an exposed manual group has it |
| `Policy.MatchingEntries` | pkg/appaccess/service.go:679-695 | the matching entries are exactly those of the groups that apply, with their ids |
| `Policy.PolicyAllowsIff` | pkg/appaccess/service.go:671-695 | access in terms of stored documents and account facts alone |
| `Policy.RowOrderIrrelevant` | pkg/appaccess/facts.go:70-101 | rows that differ only in the order or repetition of their slugs give the same error or the same decision under every policy |
| `Policy.GainingFactsKeepsAccess` | pkg/appaccess/service.go:671-695 | an account that only gains facts keeps its access unless a negated leaf changes |
| `Policy.ForgettingProviders` | pkg/appaccess/service.go:697-706 | dropping providers breaks a sound policy if and only if one of its rules mentions a dropped one |
| `Consent.Store.SetEx` | pkg/kv/store.go:40-41 | stores the value with its expiry unless it fails before taking effect |
| `Consent.Store.Get` | pkg/kv/store.go:33-35 | the live value, or not found when absent or expired |
| `Consent.Store.Pop` | pkg/kv/store.go:52-58 | returns and removes the live value in one step |
| `Consent.Store.DemandConsent` | pkg/authn/consent.go:32-46 | on success the ticket is available under its nonce; a backend error is reported |
| `Consent.Store.PeekConsent` | pkg/authn/consent.go:50-62 | shows a ticket if and only if it is available and the caller's own, and leaves the store alone |
| `Consent.Store.ConsumeConsent` | pkg/authn/consent.go:66-78 | the same answer as a peek, after which the ticket is available to nobody |
| `Consent.StoreHoldsAvailable` | pkg/authn/consent.go:32-78 | in every run the store holds for a nonce exactly the minted, unexpired, unclaimed ticket |
| `Consent.TicketReturnedIff` | pkg/authn/consent.go:48-89 | a ticket is returned if and only if it was minted under the nonce, at most 600 seconds ago, is unclaimed and belongs to the caller |
| `Consent.ConsumedOnce` | pkg/authn/consent.go:64-78 | after any consume that reached the store, by the right account or a wrong one and even if it reported an error, nobody gets the ticket |
| `Consent.AtMostOneSuccess` | pkg/authn/consent.go:64-78 | no two consumes of one nonce both succeed, in any interleaving |
| `Consent.PeeksAreInvisible` | pkg/authn/consent.go:48-62 | deleting every peek from a run leaves the same store |
| `Flow.Account.AvailableMethods` | pkg/authn/flow.go:44-87 | each method is listed exactly when its rows allow it, password only with confirmed TOTP, once and in order; the error for none; or the first read to fail |
| `Flow.Account.DisableNonWebAuthnFallbacks` | pkg/authn/flow.go:111-147 | success exactly when another factor exists and no query fails, then with codes, TOTP and password gone; for each failure, which rows are gone and which untouched; a refusal changes nothing; in every state passed through the account can sign in and no recovery code lacks its TOTP |
| `Flow.Account.Delete` | pkg/authn/flow.go:124-132 | one delete takes effect unless it fails first, and reports any failure |
| `Flow.RevocationIsSafe` | pkg/authn/flow.go:94-109 | at every failure point something still signs in, codes never outlive TOTP, and nothing is deleted without another factor |
| `Flow.RetriesConverge` | pkg/authn/flow.go:89-147 | after any number of failed attempts one clean attempt ends where a single clean one would; a refused account is never changed |
| `Flow.SuccessOnlyDropsPasswordTotp` | pkg/authn/flow.go:111-147 | full success leaves the old method list minus password+TOTP, in the same order |
| `Flow.PasswordFirstLeavesOrphanCodes` | pkg/authn/flow.go:99-107 | the opposite delete order leaves the codes of every account that has any without a TOTP |
| `Graph.ReachSetIsClosed` | dashboard/tools/route-chunks.ts:43-52 | the reachable modules hold the roots and are closed under imports |
| `Graph.ReachSetIsLeast` | dashboard/tools/route-chunks.ts:43-52 | they are within every set that holds the roots and is closed |
| `RouteChunks.Reach` | dashboard/tools/route-chunks.ts:43-52 | the worklist ends on every finite graph, cyclic or with duplicates, and returns exactly the modules some import path reaches: the roots, whatever a returned module imports, and nothing else |
| `RouteChunks.EntryIds` | dashboard/tools/route-chunks.ts:53-56 | exactly the entry modules |
| `RouteChunks.SortTargets` | dashboard/tools/route-chunks.ts:57-67 | each dynamic import the shell lacks starts the group its module name asks for |
| `RouteChunks.Plugin.BuildEnd` | dashboard/tools/route-chunks.ts:42-81 | the three sets gain exactly the shared, public-only and console-only modules; entries are shared, and a dynamic import outside the shared set is in the group its own name asks for |
| `RouteChunks.PiecesHoldEntriesAndTargets` | dashboard/tools/route-chunks.ts:53-71 | the same of the specified pieces |
| `RouteChunks.OnlyComesFromItsGroup` | dashboard/tools/route-chunks.ts:57-80 | a module is in a group only as a dynamic import of that group or as an import of another module of it |
| `RouteChunks.Plugin.Classify` | dashboard/tools/route-chunks.ts:72-80 | the loops add to each set exactly its share of the three reached sets |
| `RouteChunks.Plugin.constructor` | dashboard/tools/route-chunks.ts:33-38 | the sets start empty |
| `RouteChunks.PartitionLaws` | dashboard/tools/route-chunks.ts:53-80 | the pieces are pairwise disjoint, the shell is closed under static imports, and a static import leaves a group only for the shell |
| `RouteChunks.PartitionCovers` | dashboard/tools/route-chunks.ts:53-80 | every module reachable from an entry by static or dynamic imports is in one of the pieces |
| `RouteChunks.Preload.Visit` | dashboard/tools/route-chunks.ts:107-113 | the recursion ends, lists the file unless it is loaded, and appends only reachable files whose imports are then listed or loaded |
| `RouteChunks.Preload.VisitAll` | dashboard/tools/route-chunks.ts:110-112 | the same for all imports of a file |
| `RouteChunks.LoadedIff` | dashboard/tools/route-chunks.ts:102-103 | the shell has exactly the first entry chunk and its imports, nothing when there is no entry |
| `RouteChunks.ImportsOfIff` | dashboard/tools/route-chunks.ts:110-111 | a file's imports are those of the first chunk of that name, none when there is no such chunk |
| `RouteChunks.PreloadedLaws` | dashboard/tools/route-chunks.ts:105-117 | nothing of the shell, every chunk of the group and whatever a listed file imports unless the shell has it, and no file that is neither |
| `RouteChunks.Files` | dashboard/tools/route-chunks.ts:105-117 | lists without duplicates, each behind a slash, exactly the files reachable from a chunk of that name by import paths wholly outside the shell's first entry chunk and its imports |

## Left out

- JSON text: decoding, unknown fields, trailing data and error-string matching rest on the JSON library; the models start from decoded documents and tickets, and a ticket's encoding is taken to decode to itself.
- Explanation labels are kept as their parts; the text "fact=parameter" is not spelled out.
- The counter's value after a failed validation is not stated; the code discards it.
- Integer widths and the saturation of time arithmetic are not modelled; counts stay far below the machine's range.
- Random number and marshalling failures in minting a ticket happen before the store is touched and are not separate steps.
- Store keys of other prefixes, the Redis backend's own expiry rounding and the SAML and re-authentication tickets, which repeat the consent scheme.
- The database transaction around revocation: the states between deletes are treated as visible, and passkeys and federation links not to change during the call. Audit write failures are only logged and are not modelled.
- `publicPaths`, the emitted manifest, the bundler options and the route-name regular expression of the build plugin; a bundle that is built twice adds to the same sets, which the contract of BuildEnd shows, and the partition laws are about one build.
- The rest of the application service (loading rows, manager checks, previews), the command line, migrations and the dashboard.
