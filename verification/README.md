# Hypercerts: units, allowlists and reconciliation

A Dafny model of the parts of the hypercerts repository that mirror, split, cache or reconcile hypercert
units, with proofs of what they keep. `dafny verify dfyconfig.toml` checks everything.

| files | what they model |
|---|---|
| `SubgraphStore`, `SubgraphHandlers` | the subgraph's entity store, its mapping handlers, and the store as a function of the event log |
| `SubgraphEvents` | what each event does to the store, in its own fields |
| `SubgraphLedger` | stored units against the log: received minus sent |
| `SubgraphClaims` | units per hypercert: minted minus burned |
| `SubgraphOwners` | recorded owners against the chain's, block by block |
| `SubgraphTokens` | every field of every stored token as a function of the log |
| `SubgraphRegistry` | claims and allowlists: what the first event fixes and the last one sets |
| `AllowlistParsing`, `AllowlistValidation` | from CSV rows to a scaled, deduplicated, validated allowlist |
| `AllowlistCache` | the table of claimable fractions and the three handlers that fill and empty it |
| `SubgraphAnswers` | what the subgraph can answer, and what that spares its clients |
| `HypercertShares` | rounded ownership percentages |
| `HypercertAccounting` | paging, the append-only claim file, and reconciliation |
| `ProjectsIndex` | the project browser's two-pass index of dependents |
| `ListText`, `FlattenDict`, `Networks` | list round trips, JSON flattening, bracketed names |
| `Text`, `Sums`, `Options` | decimal and hex strings, splitting and joining, sums over sequences |

Objects whose fields the source updates are classes here (`Subgraph`, `Cache`, `AccountingFile`,
`ProjectView`, `FakeProjectsClient`); each method is proved to produce a state given by a function of the
old one, and the theorems are about that function. What the functions compute is settled separately, without
them: by event and field in `SubgraphEvents`, and by lemmas on single inputs and on concatenations elsewhere. Loading an entity gives a copy; only saving writes back.

## What was found

Each of these is something one would expect of the code that does not always hold. The model keeps the code
as it is and proves exactly when the expectation is met; for most there is also a lemma with a concrete input.

- **A mint assigns, and a row from a token to itself credits it** (`graph/src/hypercert-minter.ts:112-120`).
  Stored units are the log's balance after every row exactly when no mint hits a token with a balance and no
  row sends units from a token to itself (`AgreesIffClean`). For arbitrary logs `UnitsSinceLastMint` gives
  the final units and says when they are still right.
- **Batch transfers of ownership are ignored** (`graph/src/hypercert-minter.ts:63`). The recorded owner is
  the chain's at every block boundary exactly when no block ends its moves of a token with a batch transfer to
  somebody else than the events before it put on record: the owner when the block began, if a row of values had
  touched the token by then, or the owner at the block's end, if one does so within the block, and after either
  the recipient of each single transfer (`OwnersIffNeverMissed`, `OnRecord`).
- **Cached addresses are lower-cased, deletions are not** (`defender/src/auto-tasks/on-allowlist-created.ts:113`,
  `defender/src/auto-tasks/mint-claim-from-allowlist.ts:101`). A mint removes just the rows it means to exactly
  when the sender arrives in lower case or has no rows (`DeleteIffLowerCase`). Over whole runs the table is right
  exactly when every listing of a claimed row is followed by a claim whose sender is in lower case
  (`ExactIffSettled`); with insertions first, spelling is all that is left to go wrong (`InOrderExactIff`).
- **A creator who is also in the CSV gets more than the percentage asked for**
  (`frontend/hooks/mintClaimAllowlist.ts:54-71`): the creator stays within it exactly when the CSV gives the
  creator nothing (`HookList`).
- **Fractions that are not numbers pass the CSV parser** (`frontend/lib/parsing.ts:33-38`), because NaN is not
  at most zero. The hook's conversion stops them, so its verdict is still exact (`GetAndUpdateAllowlist`).
- **Percentages never show more than 13 decimal places**, although the comment at
  `frontend/lib/hypercert.ts:88-94` allows 15 (`PrecisionHonoured`).
- **A greedy regular expression decodes names** (`defender/src/networks.ts:43`): decoding undoes encoding
  exactly for one-line texts without a "] " that more text follows (`DecodeIffPlain`).
- **Dotted JSON keys can collide** when flattened (`utils/gitcoin/gitcoin-beta/get_grants_data.py:39`). For
  every dictionary there are as many entries as leaves exactly when no two leaves' paths join to the same key
  (`NoLeafLostIff`); under a shared key the last leaf's value stays (`FlattenIsLastLeaf`).

Two places depend on what they are given, but the subgraph never gives them what would do harm:

- `parse_claims` does not notice a claim that is listed twice in one answer
  (`utils/supabase/hypercert_accounting.py:236-242`): ids stay distinct exactly when no claim to be stored is
  listed twice (`UpdateAppends`). No listing that the subgraph can give has a repetition (`ListingDistinct`), so
  its runs keep the ids distinct (`IndexedUpdatesAppend`).
- `getTokensFor` lower-cases its argument only (`frontend/lib/hypercert.ts:157-163`, `FoundIffLowerCase`). The
  subgraph writes owners in lower-case hex, so its tokens are found under any capitalisation of their owner
  and under no other name (`IndexedTokenFound`).

## Model

| member | source | states |
|---|---|---|
| SubgraphStore.GetIDInjective | graph/src/utils.ts:5-7 | two tokens of two contracts share a key only if they are the same token of the same contract |
| SubgraphAnswers.SameClaimIds | graph/src/utils.ts:5-7 | the subgraph and the cache name a claim alike: contract in hex, a dash, decimal number |
| Text.HexReadsBack | graph/src/utils.ts:6 | two digits for each byte, the high one first |
| Text.ReadDecimalUndoesDecimal | graph/src/utils.ts:6 | decimal digits read back to the number |
| SubgraphStore.RowKeepsIndexed | graph/src/hypercert-minter.ts:95-132 | a value row leaves every entity under its own token id, token zero without units, and all claims and owners as they were |
| SubgraphStore.StepKeepsIndexed | graph/src/hypercert-minter.ts:65-175 | so does every event, even a batch that traps half-way |
| SubgraphStore.StepKeepsWellFormed | graph/src/hypercert-minter.ts:28-175 | all three tables stay keyed by their entities' ids under every event |
| SubgraphStore.ReachableIndexed | graph/src/utils.ts:59-73 | in every reachable store the entity of key (t, c) has token id t, and token zero holds no units |
| SubgraphStore.TokensNeverReassigned | graph/src/utils.ts:62-73 | an entity never disappears and never changes its token id or claim, whatever is logged later |
| SubgraphRegistry.ClaimHistory | graph/src/utils.ts:29-50 | a claim exists exactly if it was stored; its creation time is that of the first event, its uri, creator, owner and total units are those of the last |
| SubgraphRegistry.AllowlistHistory | graph/src/utils.ts:9-27 | an allowlist exists exactly if created and keeps the root of the first event |
| SubgraphRegistry.FirstAt | graph/src/utils.ts:9-50 | the first event of a kind has none before it |
| SubgraphRegistry.LastAt | graph/src/hypercert-minter.ts:40-53 | the last event of a kind has none after it |
| SubgraphTokens.TokenHistory | graph/src/utils.ts:52-76 | a token is stored exactly if a row of values touched it, under the claim that the first such row named, with the owner and the units that the log put on record since |
| SubgraphTokens.TokenClaimStored | graph/src/utils.ts:62-73 | the claim a token names is in the store exactly if a ClaimStored event named it |
| SubgraphAnswers.ListingDistinct | graph/src/utils.ts:9-27 | in every reachable store different allowlists name different claims, so a query that answers no allowlist twice lists no claim twice |
| SubgraphHandlers.Subgraph.GetOrCreateAllowlist | graph/src/utils.ts:9-27 | loads or creates and saves the allowlist |
| SubgraphHandlers.Subgraph.GetOrCreateClaim | graph/src/utils.ts:29-50 | loads or creates and saves the claim |
| SubgraphHandlers.Subgraph.GetOrCreateClaimToken | graph/src/utils.ts:52-76 | loads a copy of the token, creating it with the contract's owner and no units if it is missing |
| SubgraphHandlers.Subgraph.HandleAllowlistCreated | graph/src/hypercert-minter.ts:28-36 | the whole new store, as the log function has it |
| SubgraphHandlers.Subgraph.HandleClaimStored | graph/src/hypercert-minter.ts:40-53 | the whole new store, as the log function has it |
| SubgraphHandlers.Subgraph.HandleTransferSingle | graph/src/hypercert-minter.ts:65-76 | only an indexed token's owner changes; other transfers are dropped |
| SubgraphHandlers.Subgraph.HandleNothing | graph/src/hypercert-minter.ts:63 | batch transfers of ownership and the events without a handler body change nothing |
| SubgraphHandlers.Subgraph.MoveUnits | graph/src/hypercert-minter.ts:112-126 | the two loaded copies after a mint, transfer or burn |
| SubgraphHandlers.Subgraph.HandleValueTransfer | graph/src/hypercert-minter.ts:80-133 | the whole new store: one row, both copies loaded before either is saved, `to` saved last |
| SubgraphHandlers.Subgraph.BatchRow | graph/src/hypercert-minter.ts:144-174 | one round of the batch loop, or what is left behind when an array ends before it |
| SubgraphHandlers.Subgraph.HandleBatchValueTransfer | graph/src/hypercert-minter.ts:136-175 | a batch is its rows applied in order; it traps exactly when an array is shorter than claimIDs |
| SubgraphEvents.ValueTransferStores | graph/src/hypercert-minter.ts:80-133 | any token after a value transfer: which entities exist, with which owner and claim, and how many units a mint, a transfer, a burn, a transfer to oneself or a row of others leaves |
| SubgraphEvents.ValueTransferTouches | graph/src/hypercert-minter.ts:80-133 | entities under any but the two ends' keys stay as they are |
| SubgraphEvents.BatchIsValueTransfers | graph/src/hypercert-minter.ts:136-175 | a batch of arrays of one length is the value transfers of its claim, sender, receiver and value at each position, in order |
| SubgraphEvents.ShortBatchStops | graph/src/hypercert-minter.ts:136-175 | with an array that ends early it is those before the gap, and creates of the row at the gap only the ends that can still be read |
| SubgraphEvents.TransferSingleStores | graph/src/hypercert-minter.ts:65-76 | the owner of the token changes, if it is indexed, and nothing else |
| SubgraphEvents.IgnoredEvents | graph/src/hypercert-minter.ts:63 | batch transfers of ownership and events without a handler change nothing |
| SubgraphEvents.ClaimStoredStores | graph/src/hypercert-minter.ts:40-53 | uri, units, creator and owner come from the event, the other fields from the first one, and no other entity changes |
| SubgraphEvents.AllowlistCreatedStores | graph/src/hypercert-minter.ts:28-36 | the first event stores the root, later ones change nothing |
| SubgraphEvents.NetIsInLessOut | graph/src/hypercert-minter.ts:112-132 | the ledger balance is the values received less the values sent |
| SubgraphEvents.LedgerGrows | graph/src/hypercert-minter.ts:80-175 | which rows an event adds to the ledger, read off its fields |
| SubgraphLedger.RowUnits | graph/src/hypercert-minter.ts:112-132 | what one row does to any token's units, created or not, on its own ends or not |
| SubgraphLedger.RunUnits | graph/src/hypercert-minter.ts:80-175 | over any log the stored units depend on the value rows alone, whatever else happens and whatever ownerOf answers |
| SubgraphLedger.UnitsSinceLastMint | graph/src/hypercert-minter.ts:112-120 | for every log: final units are the last mint plus the balance since plus the self-transfers since; they are the ledger's exactly if the overwritten balance equals those self-transfers |
| SubgraphLedger.UnitsNeverMinted | graph/src/hypercert-minter.ts:117-126 | the same for a token that was never minted into |
| SubgraphLedger.RowAgrees | graph/src/hypercert-minter.ts:112-132 | agreement with the ledger survives a row exactly if the row is clean |
| SubgraphLedger.AgreesIffClean | graph/src/hypercert-minter.ts:80-175 | stored units are received minus sent for every nonzero token after every row exactly if every row is clean |
| SubgraphLedger.CleanLogAgrees | graph/src/hypercert-minter.ts:80-175 | over any finite log of single and batch transfers and other events with clean rows, stored units are received minus sent, absent entities counting as zero |
| SubgraphLedger.RepeatedMintLosesUnits | graph/src/hypercert-minter.ts:112-115 | minting 5 and then 3 into one token records 3 |
| SubgraphLedger.SelfTransferCreatesUnits | graph/src/hypercert-minter.ts:117-121 | sending 4 of 5 units to oneself records 9 |
| SubgraphLedger.BatchOrderIrrelevant | graph/src/hypercert-minter.ts:144-174 | permuting the rows of a batch that mints nothing leaves the same units for every token |
| SubgraphLedger.ReversalRestores | graph/src/hypercert-minter.ts:144-174 | a batch between tokens followed by the batch with its ends exchanged restores every token's units exactly if no row sends units to its own token |
| SubgraphOwners.HandleIsRun | graph/src/hypercert-minter.ts:28-175 | handling a block is running its events with fixed contract answers |
| SubgraphOwners.StepOwner | graph/src/hypercert-minter.ts:65-76 | one event: a recorded move sets the owner, a new entity asks the contract, everything else leaves it |
| SubgraphOwners.QuietOwner | graph/src/utils.ts:65-72 | any events that record no move keep the owner, or create it with the contract's answer |
| SubgraphOwners.StepIndexes | graph/src/utils.ts:52-76 | an event indexes a token exactly if one of its rows, or the row a trapping batch could not finish, touches it |
| SubgraphOwners.HandleOnRecord | graph/src/hypercert-minter.ts:65-76 | whether a token is indexed and which owner is on record after any events, read off the events alone |
| SubgraphOwners.BlockKeepsOwner | graph/src/hypercert-minter.ts:65-76 | right before a block, a recorded owner is right after it exactly if the block's events miss no batch move; early transfers and mid-block creation do no harm |
| SubgraphOwners.OwnersIffNeverMissed | graph/src/hypercert-minter.ts:63-76 | over any chain of blocks the recorded owner is right at every boundary exactly if no block's last move of the token is a batch transfer to another owner than the genesis owners and the events have put on record |
| SubgraphOwners.SingleTransfersTracked | graph/src/hypercert-minter.ts:65-76 | where all moves of a token are single transfers its recorded owner is the chain's at every block boundary |
| SubgraphOwners.BatchTransferGoesStale | graph/src/hypercert-minter.ts:63 | a batch transfer of an indexed token leaves the old owner on record |
| SubgraphClaims.RowTotal | graph/src/hypercert-minter.ts:112-132 | how any row consistent with its claim changes the claim's total, overwritten and self-sent units included |
| SubgraphClaims.RowNonNegative | graph/src/hypercert-minter.ts:117-126 | a row that sends no more than the sender holds leaves no token in debt |
| SubgraphClaims.ClaimsConserveUnits | graph/src/hypercert-minter.ts:80-175 | over every log with the contract's guarantees no token owes units, each claim's tokens together hold minted minus burned, and every token holds its ledger balance |
| AllowlistParsing.SumUnitsTotal | frontend/lib/parsing.ts:35-38 | the total is the sum, or NaN exactly if some fraction is |
| AllowlistParsing.AddedTotal | frontend/lib/parsing.ts:57-62 | rounding down loses less than one unit per added entry |
| AllowlistParsing.ParsedAllowlist | frontend/lib/parsing.ts:27-79 | accepted exactly if nothing failed to parse, fractions that are all numbers add up to more than zero, and the percentages lie in [0, 1) each and together, with or without deduplication; which error otherwise; the plain list has the CSV's rows and then each added entry with the whole units of its percentage of S, and deduplication groups that list by address |
| AllowlistParsing.RowsMergedIff | frontend/lib/parsing.ts:31-33 | deduplication merges two rows exactly if their trimmed addresses are the same but for the case of letters |
| Text.LowerEqualIff | frontend/lib/parsing.ts:32 | two strings have one lower-case form exactly if they agree but for the two cases of a letter |
| Text.LowerAlphabet | frontend/lib/parsing.ts:32 | each letter has its own lower case |
| Text.TrimPads | frontend/lib/parsing.ts:32 | trimming takes the white space off both ends and leaves the rest |
| AllowlistParsing.SupplyBounds | frontend/lib/parsing.ts:35-62 | with S the CSV total over what it keeps: supply at most S, short by less than the number of added entries (by nothing without any), and the added entries hold at most their percentage of the final supply and less than one unit each below it |
| AllowlistParsing.DeduplicateGroups | frontend/lib/parsing.ts:69-79 | every address once, with the units of all its entries, and no other address |
| AllowlistParsing.DeduplicateMerges | frontend/lib/parsing.ts:69-79 | those units are the total over its entries, or no number if one of them is none |
| AllowlistParsing.DeduplicateSum | frontend/lib/parsing.ts:69-79 | deduplication keeps the total |
| AllowlistParsing.GroupsUnique | frontend/lib/parsing.ts:69-79 | grouping has one result up to order |
| AllowlistParsing.DeduplicateIdempotent | frontend/lib/parsing.ts:69-79 | deduplicating again changes nothing |
| AllowlistValidation.ValidateAllowlist | sdk/src/validator/index.ts:91-110 | valid exactly if the units add up to the nonzero supply and all addresses are valid; which error is reported under which key; no result for a unit that is not a number |
| AllowlistValidation.RejectedInOrder | sdk/src/validator/index.ts:103-106 | the addresses are reported in order, once for each entry with one of them |
| AllowlistValidation.AcceptedTotal | frontend/lib/parsing.ts:35-67 | an accepted list has numbers exactly if its CSV has, and then a positive total no smaller than the CSV's |
| AllowlistValidation.AcceptedAddresses | frontend/lib/parsing.ts:57-79 | an accepted list has the CSV's addresses and the added ones, no others |
| AllowlistValidation.AcceptedIsValid | frontend/hooks/mintClaimAllowlist.ts:54-71 | every accepted list, deduplicated or not, validates against its own supply exactly if all fractions are numbers and all addresses valid |
| AllowlistValidation.CreatorSupply | frontend/hooks/mintClaimAllowlist.ts:57-69 | with the creator as only added entry the supply is S rounded down |
| AllowlistValidation.HookList | frontend/hooks/mintClaimAllowlist.ts:49-69 | for a usable CSV and the percentage q that it gets: the supply is 100 / q times the CSV's total, rounded down; the creator holds what the CSV gives the creator plus the rest; and stays within the rest exactly if the CSV gives the creator no units, deduplicated or not |
| AllowlistValidation.NinetyPercent | frontend/hooks/mintClaimAllowlist.ts:49-62 | 90 units as 90 percent give a supply of 100, of which the creator gets 10 |
| AllowlistValidation.NoPercentage | frontend/hooks/mintClaimAllowlist.ts:49-50 | without a percentage the CSV gets half |
| AllowlistValidation.ListedCreatorExceeds | frontend/hooks/mintClaimAllowlist.ts:54-71 | a CSV of one unit for the creator who asks for half |
| AllowlistValidation.GetAndUpdateAllowlist | frontend/hooks/mintClaimAllowlist.ts:39-78 | with q the percentage, 50 if none: valid exactly for a parseable CSV of numbers with a positive total, 0 < q <= 100, and valid addresses; the parser's list, the supply and the creator's holding from the CSV and q; which addresses are reported; an empty list after an exception |
| AllowlistValidation.ParserAcceptsNaN | frontend/lib/parsing.ts:31-38 | a CSV with a fraction that is not a number is always accepted by the parser, and valid for no supply |
| AllowlistCache.FormatClaimIdInjective | defender/src/auto-tasks/on-allowlist-created.ts:114 | rows of different claims of a contract never share a claim id |
| AllowlistCache.SameFormat | defender/src/auto-tasks/mint-claim-from-allowlist.ts:91-93 | inserting and deleting handlers write the same claim id |
| AllowlistCache.StepCount | defender/src/auto-tasks/on-allowlist-created.ts:106-122 | how often any row is in the table after a handler run |
| AllowlistCache.ExactIffSettled | defender/src/auto-tasks/batch-mint-claims-from-allowlists.ts:84-103 | over any order of runs the table holds row (a, c, i) just if allowlist c lists a at i and a, however capitalised, has not minted on c, exactly if every listing of a claimed row is followed by a claim whose sender is spelled as cached |
| AllowlistCache.InOrderExactIff | defender/src/auto-tasks/mint-claim-from-allowlist.ts:97-103 | with every claim inserted before its mints, exactly if every row that is listed and claimed is claimed once under its own spelling |
| AllowlistCache.InOrderIsExact | defender/src/auto-tasks/on-allowlist-created.ts:106-122 | in particular when all senders come in lower case |
| AllowlistCache.OrdersConverge | defender/src/auto-tasks/batch-mint-claims-from-allowlists.ts:84-103 | any two orders of the same runs with every claim inserted before its mints give the same table |
| AllowlistCache.LateInsertIsStale | defender/src/auto-tasks/mint-claim-from-allowlist.ts:97-103 | any mint handled before its allowlist leaves the minter's row |
| AllowlistCache.BatchIsSingles | defender/src/auto-tasks/batch-mint-claims-from-allowlists.ts:88-103 | one batch delete is the single deletes for its claim ids |
| AllowlistCache.CachedAddressesLower | defender/src/auto-tasks/on-allowlist-created.ts:113 | every cached address is in lower case, always |
| AllowlistCache.DeleteIffLowerCase | defender/src/auto-tasks/mint-claim-from-allowlist.ts:98-103 | a mint removes just the sender's rows on its claims exactly if the sender comes in lower case or has none |
| AllowlistCache.ChecksummedSenderKeepsRow | defender/src/auto-tasks/mint-claim-from-allowlist.ts:98-103 | the row of every sender with a capital letter stays, even with the insertion first |
| AllowlistCache.NamedOnce | defender/src/auto-tasks/on-allowlist-created.ts:64-84 | one event of a name is found exactly if one position of the logs holds one, and then it is that one |
| AllowlistCache.Cache.OnAllowlistCreated | defender/src/auto-tasks/on-allowlist-created.ts:42-132 | done exactly for a block with a contract and one AllowlistCreated event in its logs, when tree and insert succeed; then one row per leaf follows, with the address in lower case, the claim id and the position; which error otherwise, with the table unchanged |
| AllowlistCache.Cache.MintClaim | defender/src/auto-tasks/mint-claim-from-allowlist.ts:34-113 | done exactly for a block with contract, sender, transaction and one BatchValueTransfer event that has a claim id, when the receipt can be awaited; with status 1 just the sender's rows for its first claim id go, and otherwise none |
| AllowlistCache.Cache.BatchMintClaims | defender/src/auto-tasks/batch-mint-claims-from-allowlists.ts:33-114 | the same for all claim ids of the event, of which there may be none |
| HypercertShares.DivRoundNearest | frontend/lib/hypercert.ts:98 | rounded division gives a nearest integer, the upper of two |
| HypercertShares.Nearest | frontend/lib/hypercert.ts:98 | and only that integer has this property |
| HypercertShares.ScaleFits | frontend/lib/hypercert.ts:82-96 | every scale lies between 100 and 10^15, below 2^53 |
| HypercertShares.PrecisionHonoured | frontend/lib/hypercert.ts:82-95 | a precision is honoured exactly up to 13 places; a missing or negative one counts as 2 |
| HypercertShares.PercentageDefined | frontend/lib/hypercert.ts:98 | a number comes out exactly if there are units in all and the rounded share stays below 2^53, in particular for every part of the total |
| HypercertShares.PercentageNear | frontend/lib/hypercert.ts:94-98 | the percentage shown is within half a step of the exact one |
| HypercertShares.PercentageInSteps | frontend/lib/hypercert.ts:94-98 | it is a whole number of steps of 100 over the scale, the nearest one to the exact share |
| HypercertShares.PercentageMonotone | frontend/lib/hypercert.ts:98 | more units never show as less |
| HypercertShares.OwnersPartition | frontend/lib/hypercert.ts:76-80 | splitting tokens among distinct owners who cover them keeps the units |
| HypercertShares.SharesAddUp | frontend/lib/hypercert.ts:94-98 | the rounded shares of n owners who together hold everything add up to the scale within n/2 |
| HypercertShares.StepsShown | frontend/lib/hypercert.ts:94-98 | those rounded shares are what the owners' percentages show |
| HypercertShares.FoundIffLowerCase | frontend/lib/hypercert.ts:157-163 | a token is found under its owner's name exactly if that is in lower case |
| SubgraphAnswers.IndexedTokenFound | frontend/lib/hypercert.ts:157-163 | a token from the subgraph is found exactly under the capitalisations of its owner |
| HypercertAccounting.CollectClaims | utils/supabase/hypercert_accounting.py:197-203 | paging ends and yields the server's list, also when its length is a multiple of the page |
| HypercertAccounting.CreateClaimRecord | utils/supabase/hypercert_accounting.py:170-220 | a record exactly if metadata and allowlist can be retrieved, with every field as answered, all user claims included |
| HypercertAccounting.ParseClaims | utils/supabase/hypercert_accounting.py:223-244 | records for the listed claims that are new and retrievable, in order |
| HypercertAccounting.NewRecordsInOrder | utils/supabase/hypercert_accounting.py:234-242 | listings are taken one after the other |
| HypercertAccounting.OneNewRecord | utils/supabase/hypercert_accounting.py:236-242 | a listed claim gives its record if it is new and retrievable, and nothing otherwise |
| HypercertAccounting.AccountingFile.Update | utils/supabase/hypercert_accounting.py:247-265 | the file after a run, present before or not |
| HypercertAccounting.UpdateAppends | utils/supabase/hypercert_accounting.py:236-262 | a run only appends, stores exactly the listed retrievable claims not there yet, and keeps ids distinct exactly if none of those is listed twice |
| HypercertAccounting.UpdatesAppend | utils/supabase/hypercert_accounting.py:254-265 | over any number of runs on lists without repetitions the file only grows and its ids stay distinct |
| HypercertAccounting.ListedIsStored | utils/supabase/hypercert_accounting.py:247-265 | whatever any run listed and could retrieve is in the file |
| HypercertAccounting.RecordsKeepAnswers | utils/supabase/hypercert_accounting.py:247-265 | every stored record has, field by field, the answers of a run that listed its claim when it was not stored yet |
| SubgraphAnswers.IndexedUpdatesAppend | utils/supabase/hypercert_accounting.py:247-265 | listings that the subgraph can give repeat no claim, so any number of runs on them keep the ids distinct |
| HypercertAccounting.RepeatedListingStoredTwice | utils/supabase/hypercert_accounting.py:236-242 | a claim listed twice in one answer is stored twice |
| HypercertAccounting.ReconcileClaim | utils/supabase/hypercert_accounting.py:288-320 | the dictionary passes give one entry per name in first-seen order, with its sums, slots and flags |
| HypercertAccounting.ReconcileClaims | utils/supabase/hypercert_accounting.py:283-320 | hidden claims are skipped, the others follow each other |
| HypercertAccounting.ReportInOrder | utils/supabase/hypercert_accounting.py:282-320 | the report takes the records in order, each for its own entries or none if hidden |
| HypercertAccounting.EntryContents | utils/supabase/hypercert_accounting.py:288-320 | every field of a line, from the claim's lists and the address |
| HypercertAccounting.OneEntryPerAddress | utils/supabase/hypercert_accounting.py:302-320 | one entry for each address on the allowlist or among the claimants, and no other |
| HypercertAccounting.ReconcileConserves | utils/supabase/hypercert_accounting.py:302-314 | entry units, slots and claimed units add up to allowlist units, allowlist length and user-claim units |
| HypercertAccounting.OneLinePerPair | utils/supabase/hypercert_accounting.py:282-320 | for distinct claim ids the whole report has one line for each claim that is not hidden and each address on its allowlist or among its claimants, and no other line |
| HypercertAccounting.ReportConserves | utils/supabase/hypercert_accounting.py:282-320 | units, slots and claimed units of the whole report add up to those of the claims that are not hidden |
| HypercertAccounting.ReportedIff | utils/supabase/hypercert_accounting.py:316-323 | the error flag is set exactly if the address claimed no units and the cache does not list it |
| ProjectsIndex.FakeProjectsClient.LoadConfig | frontend/lib/projects.tsx:463-499 | fails exactly on an unknown dependency; otherwise names and repositories lead to the project configured last, and dependents and marks are those of all dependencies |
| ProjectsIndex.FakeProjectsClient.IndexProjects | frontend/lib/projects.tsx:486-490 | the first pass |
| ProjectsIndex.FakeProjectsClient.RecordProject | frontend/lib/projects.tsx:492-498 | one project of the second pass |
| ProjectsIndex.FakeProjectsClient.ByRepo | frontend/lib/projects.tsx:551-553 | the view of the project configured last for the repository, if any |
| ProjectsIndex.FakeProjectsClient.ByName | frontend/lib/projects.tsx:555-557 | and the same by name |
| ProjectsIndex.FakeProjectsClient.Dependents | frontend/lib/projects.tsx:559-561 | for a configured repository the views of the projects that list it, once for each time and in configured order; its own view is marked exactly if there are any |
| ProjectsIndex.DependentsInvert | frontend/lib/projects.tsx:492-498 | a project is among a repository's dependents as often as it lists the repository |
| ProjectsIndex.DependentsInOrder | frontend/lib/projects.tsx:492-498 | dependents come in the order of the configuration |
| ProjectsIndex.IndexSizes | frontend/lib/projects.tsx:492-498 | the lists of dependents together hold each dependency once |
| ListText.ParseConcat | frontend/lib/parsing.ts:97-103 | parsing distributes over a comma or line break |
| ListText.ParsePiece | frontend/lib/parsing.ts:97-103 | a piece without commas and line breaks is its trimmed text, or nothing if that is empty |
| ListText.RoundTripIff | sdk/src/utils/formatter.ts:69-75 | a list comes back from its ", " display value and from a comma join exactly if its items are non-empty, trimmed and separator-free |
| ListText.ParseDisplayParse | frontend/lib/parsing.ts:97-103 | what was parsed once survives display and parsing |
| ListText.ModesOfCase | frontend/lib/parsing.ts:104-117 | without a mode items stay as they are, one mode lower-cases all, the other just hexadecimal addresses |
| ListText.DeduplicatedList | frontend/lib/parsing.ts:118-120 | deduplication comes after that and keeps first occurrences |
| ListText.DuplicateTest | frontend/lib/parsing.ts:118-121 | parsing with and without deduplication agrees exactly on distinct items, after lower-casing |
| FlattenDict.FlattenFields | utils/gitcoin/gitcoin-beta/get_grants_data.py:33-44 | the recursive loop computes the flattening |
| FlattenDict.FlattenConcat | utils/gitcoin/gitcoin-beta/get_grants_data.py:36-43 | fields are flattened one after the other, later entries winning |
| FlattenDict.FlattenOne | utils/gitcoin/gitcoin-beta/get_grants_data.py:37-43 | a scalar goes under its key, list items under key and position, an object's entries under key and their own key |
| FlattenDict.FlattenIsLastLeaf | utils/gitcoin/gitcoin-beta/get_grants_data.py:33-44 | whatever the keys, the entries are exactly the dot-joined paths of the leaves, each with the value of the last leaf whose path joins to it |
| FlattenDict.NoLeafLostIff | utils/gitcoin/gitcoin-beta/get_grants_data.py:33-44 | there are as many entries as leaves exactly if no two paths join to the same key |
| FlattenDict.FlattenIsLookup | utils/gitcoin/gitcoin-beta/get_grants_data.py:33-44 | for dot-free distinct keys every key holds the value at the path it splits into, if there is one |
| FlattenDict.JoinedPathFinds | utils/gitcoin/gitcoin-beta/get_grants_data.py:33-44 | and the dot-joined path of any dot-free keys finds what following the path finds |
| FlattenDict.OneEntryPerLeaf | utils/gitcoin/gitcoin-beta/get_grants_data.py:33-44 | for dot-free distinct keys no two leaves collide |
| FlattenDict.DottedKeysCollide | utils/gitcoin/gitcoin-beta/get_grants_data.py:39 | a dotted key collides with a nested one: two leaves, one entry |
| Networks.DecodeLongest | defender/src/networks.ts:40-51 | any string: the longest key that makes it an encoding, and an exception exactly if it is none |
| Networks.DecodeIffPlain | defender/src/networks.ts:37-51 | decoding undoes encoding exactly for one-line texts without a "] " that more text follows |
| Networks.GreedyDecodingMisreads | defender/src/networks.ts:43 | the name "a] b" does not come back |
| Networks.GetNetworkConfigFromName | defender/src/networks.ts:57-66 | the first network whose bracketed key occurs in the name |
| Networks.LookupFindsFirst | defender/src/networks.ts:57-66 | a network is returned exactly if some bracketed key occurs, and then the first such network |
| Networks.LookupIff | defender/src/networks.ts:57-66 | for distinct bracket-free keys an encoded name leads back to its network exactly if no earlier bracketed key occurs in the plain name |
| Networks.EncodedNameServes | defender/src/networks.ts:37-66 | with a bracket-free plain name decoding and lookup both return what was encoded |

## Left out

- The contracts: their guarantees (fresh mint ids, no overspending, one claim per token) appear only as hypotheses on the log in `SubgraphClaims`.
- ownerOf that reverts, and discarding a block's writes after a handler traps: the contract call is a total function and a trapped batch shows the writes made before the trap.
- HandleBatchValueTransfer: the two value handlers share `MoveUnits` here, while the source writes the three branches out twice; log output is dropped.
- Network lookups, fetching, IPFS and Supabase clients: what they answer is a parameter. A database failure on deletion is not modelled, since the client returns an object in any case.
- CSV tokenising, parseInt, address checksums, JSON schemas and Merkle trees: library behaviour. Parsed rows, an arbitrary address predicate and the list of leaves stand for them.
- DivRound: bn.js is not part of this model. Rounding halves up, refusing to divide by zero and refusing to convert more than 53 bits are taken as its behaviour.
- Floating point: percentages are exact reals and units unbounded integers, except for the 53-bit limit in `HypercertShares`.
- GroupsUnique: the order in which a JavaScript object lists integer-like keys is not modelled, so deduplication is settled up to order.
- Lower-casing beyond ASCII letters, and non-integer precision arguments.
- Token units in `HypercertShares` are non-negative, as the index keeps them for legal logs.
- CollectClaims: the server's list does not change between pages, and the graph's own limit on offsets is not modelled.
- The error report's sorting by address and the CSV and JSON file formats.
- CreateClaimRecord: dates, URIs and the metadata beyond the claim's name are copied through and not modelled.
- LoadConfig: random figures and the other fields of a project view are not modelled; nothing is said of the dependents recorded before a failure.
- Dialog and transaction hooks, user interface, sorting and filtering of projects, metadata formatting apart from the joined display values: wiring or easy members.
