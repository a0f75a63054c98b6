# TWIG system contracts: verified model

Seven parts of the TWIG contracts for Antelope, modelled in Dafny and proved correct: the finalizer-key registry and
producer election and the emission of the system contract, the block table, the token ledger, the vesting bank, the
multisig contract and the name auction.

An action is one atomic step over persistent tables, and a failed check undoes all of it. Each contract therefore has
two descriptions. On values, every action is a function from tables to tables or to failure, and the theorems are about
these functions and about every run of them. Beside that, a class holds the tables as fields, and its methods change
them in place with the loops, the early exits and the order of checks of the C++ code; each method is proved to do what
the function says.

What the actions accept and leave is stated once more in terms of the tables alone, by lemmas named `...AcceptedIff` and
`...IsExact`: the exact condition of success, the rows that change, and that no others do.

| file | content |
|---|---|
| `RegistrySpec.dfy`, `RegistryLimits.dfy`, `ProducerRegistry.dfy` | tables `finkeys`, `finalizers`, `finkeyidgen`, `lastpropfins`; registration, activation, deletion, election, switch to Savanna; runs on which counters wrap or a key is listed twice |
| `Election.dfy`, `Sorting.dfy` | the scan of the vote index, quorums, sorting and binary search |
| `LedgerSpec.dfy`, `Token.dfy` | balances and supplies of many fungibles |
| `BankSpec.dfy`, `BankLimits.dfy`, `Bank.dfy` | vesting of deposits over two epochs |
| `Solvency.dfy` | ledger and bank together |
| `Tokenomics.dfy` | lucky-number counters, issue and split of a chunk |
| `Rewards.dfy`, `Emission.dfy` | a chunk with the bank's bookings and payouts; runs of blocks with refused chunks |
| `MsigSpec.dfy`, `MsigLimits.dfy`, `Msig.dfy` | proposals, approvals, invalidation, delayed execution |
| `BlockWindow.dfy` | rolling block table and batch lookup |
| `NameAuction.dfy`, `AuctionSolvency.dfy` | bids and refunds; ledger and auction together |
| `Common.dfy`, `Sums.dfy`, `Arithmetic.dfy` | names, assets, 64-bit wrap-around; totals of maps; quotients and powers |

`dafny verify dfyconfig.toml` checks the project.

## What the proofs found

Where the code does not do what its comments or names suggest, the model follows the code and the exact condition is
proved.

- `issue` compares supply plus amount with the maximum in 64-bit arithmetic, and its amounts are not checked to be valid
  assets. In a sound state of a run an amount near 2^63 passes and leaves a negative supply (`IssueCanWrap`). The ledger
  stays sound exactly when no sum leaves 64 bits (`IssueKeepsInvIff`, over runs `LedgerSpec.RunSoundIff`).
- The list of proposed finalizers, and the policy handed to the host, can name one public key twice: a finalizer deletes
  its listed key, and another one registers and activates it (`KeyCanBeListedTwice`). Keys stay distinct exactly when no
  activation uses a key that is still listed for a deleted registration (`ActivationKeysDistinctIff` for one step,
  `RunKeysDistinctIff` for runs, `FinalizerRegistry.ActFinKey` for the policy). Key ids and names are always distinct,
  and so are the public keys of a fresh proposal.
- The key count of a finalizer, the key id generator and the epoch counter wrap around at 32, 64 and 32 bits.
  `RegistrySpec.RunSoundIff`, `NextIdIsFresh` and `IssuingChunksCappedIff` say exactly when this breaks what they are for;
  `KeyCountCanWrap` and `GeneratorCanRestart` show states where it does; below 2^32 registrations it never does
  (`ShortRunsAreSound`).
- Emission can stop for good. A chunk that does not fit below the maximum supply is refused, which undoes its block, so
  the chunk stays to be found and every later hit is refused too (`RefusedForever`). It happens unless the supply at the
  beginning is less than what the maximum leaves after division by the number of chunks (`RoomForAllIff`,
  `RoomMeansNoRefusal`, `NoRoomMeansNoEnd`), so even without any supply when nothing is left
  (`EvenNoSupplyLeavesNoRoom`). The comment at contracts/eosio.system/include/eosio.system.hpp:259 allows for an initial
  supply of five percent.
- The delay of a multisig proposal runs on when the approvals that started it are invalidated
  (`InvalidationDoesNotStopTheDelay`). A proposal that is executed was authorized all the time it waited if and only if
  every invalidation meanwhile left approvals that authorize it (`AuthorizedWhileWaiting`).
- The release formula of the bank divides integers before it converts to floating point. It releases nothing while no
  chunk of the epoch has been found, and everything with the first deposit after that (`ReleaseIsAllOrNothing`), where
  uncut ratios would release a linear part (`LinearRelease`). Both are the same exactly when no chunk has been found, or
  all have, or nothing is left (`ReleaseIsLinearIff`); `ReleaseRunsAhead` is a run on which they differ.
- A block recorded at height zero is erased in the same step, and only that one (`NewRowStaysIff`).

The number of chunks of an epoch is 60750, from the expression at contracts/eosio.system/include/eosio.system.hpp:77; the
comment on that line gives another value. Maximum supplies are never reached, since the check at
contracts/twig.token/src/actions/contract.admin.cpp:18 is strict.

## Model

| member | source | states |
|---|---|---|
| RegistrySpec.RunKeepsInv | contracts/eosio.system/src/actions/3.producers.cpp:54-190 | In every state that a run of registrations, activations, deletions, elections and switches with room in both counters reaches: a finalizer row exists exactly for the owners of at least one key, counts their keys, and points to an owned key with that key's binary; key binaries are distinct; and a listed id that is still registered is its owner's active key with the same binary |
| RegistrySpec.RunSoundIff | contracts/eosio.system/src/actions/3.producers.cpp:54-190 | Over any run whatever, all states agree in this way if and only if every accepted registration had room in the key count and did not restart the id generator on other keys or entries |
| RegistrySpec.ShortRunsAreSound | contracts/eosio.system/src/actions/3.producers.cpp:54-190 | A run with fewer than 2^32 registrations always has room in both counters, so all its states agree in this way without any assumption |
| RegistrySpec.CountersBounded | contracts/eosio.system/src/functions/functions.producers.cpp:160-177 | In every state of any run the last id and every key count are at most the number of registrations so far |
| RegistrySpec.RegFinKeyKeepsInv | contracts/eosio.system/src/actions/3.producers.cpp:54-103 | A registration keeps that agreement of the four tables while both counters have room |
| RegistrySpec.RegFinKeyKeepsInvIff | contracts/eosio.system/src/actions/3.producers.cpp:54-103 | An accepted registration keeps the agreement if and only if the 32-bit key count has room and the 64-bit id generator does not start again from zero while keys are registered or other entries proposed |
| RegistrySpec.RegistrationAcceptedIff | contracts/eosio.system/src/actions/3.producers.cpp:58-84 | A registration is accepted if and only if the finalizer is a producer, the proof of possession holds, no registered key has these bytes and the next id is free |
| RegistrySpec.RegistrationIsExact | contracts/eosio.system/src/actions/3.producers.cpp:77-102 | An accepted registration puts the key under the id after the last, as the active key of a first row or as one more in the count, and changes nothing else |
| RegistrySpec.KeyWasRegistered | contracts/eosio.system/src/actions/3.producers.cpp:54-103 | Every key registered in any state of any run was registered under that id by its owner, a producer, with a valid proof of possession, in an earlier accepted step, and has been there ever since |
| RegistrySpec.KeyCountTrueIff | contracts/eosio.system/src/actions/3.producers.cpp:86-102 | After a registration the owner's row tells the truth if and only if its 32-bit key count was not at its maximum |
| RegistrySpec.NextIdIsFresh | contracts/eosio.system/src/functions/functions.producers.cpp:160-177 | The id generator hands out an id never used before if and only if its 64-bit counter is not at its maximum |
| RegistrySpec.IdsAreNeverReused | contracts/eosio.system/src/functions/functions.producers.cpp:160-177 | Over any run with room in both counters, an id once used stays used, names the same key of the same owner as long as it is registered, and never comes back after deletion |
| RegistrySpec.IdsIncrease | contracts/eosio.system/src/functions/functions.producers.cpp:160-177 | Of two accepted registrations of a run with room in both counters the later one gets the strictly larger id, and no state before it used that id |
| RegistrySpec.SavannaIsFinal | contracts/eosio.system/src/actions/3.producers.cpp:198-199 | Over a run whose registrations are safe, once a state has proposed finalizers every later one has |
| RegistrySpec.SwitchSucceedsOnce | contracts/eosio.system/src/actions/3.producers.cpp:198-199 | Over such a run no switch to Savanna is accepted after an accepted switch or election |
| RegistrySpec.ActivationKeysDistinctIff | contracts/eosio.system/src/actions/3.producers.cpp:148-156 | If the listed public keys are distinct, an accepted activation leaves them distinct if and only if, when the old key is listed, no listed entry of a deleted registration carries the activated key |
| RegistrySpec.RunKeysDistinctIff | contracts/eosio.system/src/actions/3.producers.cpp:105-157 | Over any run of safe registrations the listed public keys are distinct in every state if and only if every accepted activation met that condition |
| RegistryLimits.KeyCanBeListedTwice | contracts/eosio.system/src/actions/3.producers.cpp:105-190 | For any two finalizers and keys, a run from the empty tables after which one public key is listed for both: the first deletes its listed key, the second registers and activates it; just before that the state agrees and the listed keys are distinct |
| RegistryLimits.GeneratorCanRestart | contracts/eosio.system/src/functions/functions.producers.cpp:170-173 | The run that registers a key 2^64 times and deletes it in between has room throughout and ends in a state that agrees; the next registration is accepted, gets the first id again, deleted long before, and breaks the agreement |
| RegistryLimits.KeyCountCanWrap | contracts/eosio.system/src/actions/3.producers.cpp:97-102 | The run that registers 2^32 - 1 keys of one finalizer has room throughout and ends in a state that agrees, with the count at its maximum and another registration acceptable |
| RegistryLimits.OneTooMany | contracts/eosio.system/src/actions/3.producers.cpp:97-102 | In any state that agrees, an accepted registration on a full key count sets the count to zero and breaks the agreement |
| RegistrySpec.ActFinKeyKeepsInv | contracts/eosio.system/src/actions/3.producers.cpp:105-157 | Activation keeps the agreement of the tables and of the stored list |
| RegistrySpec.ActivationAcceptedIff | contracts/eosio.system/src/actions/3.producers.cpp:109-123 | An activation is accepted if and only if the finalizer has registered that key and it is not its active one |
| RegistrySpec.ActivatedIdIsNotListed | contracts/eosio.system/src/actions/3.producers.cpp:140-156 | The id that activation writes into the stored list is never already there, and the entry it edits is the owner's with its old active key |
| RegistrySpec.ActivationIsExact | contracts/eosio.system/src/actions/3.producers.cpp:125-156 | After activation the named key is the owner's active one and is listed exactly when the old one was, in its place; no other finalizer and no other entry changes |
| RegistrySpec.ActivationIsReversible | contracts/eosio.system/src/actions/3.producers.cpp:105-157 | Activating the old key again restores all four tables |
| RegistrySpec.DelFinKeyKeepsInv | contracts/eosio.system/src/actions/3.producers.cpp:159-190 | Deletion keeps the agreement: it removes the row with the last key and never an active key while others remain |
| RegistrySpec.DeletionAcceptedIff | contracts/eosio.system/src/actions/3.producers.cpp:159-178 | A deletion is accepted if and only if the finalizer has registered that key, and it is not its active one or is its only one |
| RegistrySpec.DeletionIsExact | contracts/eosio.system/src/actions/3.producers.cpp:180-189 | An accepted deletion takes the key away and lowers the count, or removes the row with the only key; the proposed list and everything else stay |
| RegistrySpec.DeleteUndoesRegister | contracts/eosio.system/src/actions/3.producers.cpp:54-190 | Deleting a key that was just registered succeeds and restores keys and rows; only the id stays used up |
| RegistrySpec.ProposeKeepsInv | contracts/eosio.system/src/functions/functions.producers.cpp:115-148 | Replacing the stored list by the active keys of any set of finalizers keeps the agreement |
| RegistrySpec.ProposalIsExact | contracts/eosio.system/include/eosio.system.hpp:408-419 | A fresh proposal lists each named finalizer exactly once, with weight one and its current active key, and no public key twice |
| ProducerRegistry.FinalizerRegistry.constructor | contracts/eosio.system/include/eosio.system.hpp:375-442 | The empty tables satisfy the invariant of the class |
| ProducerRegistry.FinalizerRegistry.GetLastProposedFinalizers | contracts/eosio.system/src/functions/functions.producers.cpp:23-34 | The cached list that is returned is the stored one, whether the cache was filled or not |
| ProducerRegistry.FinalizerRegistry.GetNextFinalizerKeyId | contracts/eosio.system/src/functions/functions.producers.cpp:160-177 | Returns the id after the last one modulo 2^64, zero when there is none, and stores it |
| ProducerRegistry.FinalizerRegistry.SetProposedFinalizers | contracts/eosio.system/src/functions/functions.producers.cpp:36-83 | The stored list becomes the proposal in key id order and one sound policy for exactly that list goes to the host, unless ids and public keys are those of the stored list, when nothing changes; cache and table stay equal |
| ProducerRegistry.FinalizerRegistry.FindKey | contracts/eosio.system/src/actions/3.producers.cpp:112-117 | The search by key hash finds the one id that carries the key, or none if none does |
| ProducerRegistry.FinalizerRegistry.FindOwnedKey | contracts/eosio.system/src/functions/functions.producers.cpp:151-158 | Succeeds exactly when the finalizer has a row with keys and the key is registered by it |
| ProducerRegistry.FinalizerRegistry.RegFinKey | contracts/eosio.system/src/actions/3.producers.cpp:54-103 | Registers or fails leaving every table as it was, exactly as the value-level action; afterwards the invariant holds if and only if it failed or the registration was safe for both counters |
| ProducerRegistry.FinalizerRegistry.ActFinKey | contracts/eosio.system/src/actions/3.producers.cpp:105-157 | The in-place edit through binary search does to the tables exactly what the value-level activation does, keeps the list sorted and the invariant, and hands over a policy exactly when the list changed; from distinct listed keys, the policy of the new list has distinct public keys if and only if the activated key is not still listed for a deleted registration |
| ProducerRegistry.FinalizerRegistry.SetActive | contracts/eosio.system/src/actions/3.producers.cpp:125-156 | Changes row and stored list together as the value-level activation does, whether the old key is listed or not, and keeps the list sorted and in step with its policy |
| ProducerRegistry.FinalizerRegistry.ReplaceProposed | contracts/eosio.system/src/actions/3.producers.cpp:133-156 | In the list read as a table from id to authority, the old id's entry, if there is one, moves to the new id with the new key, and the list is stored sorted |
| ProducerRegistry.FinalizerRegistry.ReplaceEntry | contracts/eosio.system/src/actions/3.producers.cpp:149-155 | Putting an entry with a new id in the place of one always changes the list: the table loses the old id, gains the new entry, and its policy goes to the host |
| ProducerRegistry.FinalizerRegistry.BuildPolicy | contracts/eosio.system/src/functions/functions.producers.cpp:50-61 | The policy holds the authorities of the list in its order, with unit weights and a sound threshold |
| ProducerRegistry.PolicyNamesListedKeys | contracts/eosio.system/src/functions/functions.producers.cpp:50-61 | A policy has distinct public keys if and only if the table that its list stands for has |
| ProducerRegistry.FreshPolicyKeysDistinct | contracts/eosio.system/src/functions/functions.producers.cpp:115-148 | The policy of a list built fresh from the tables never names a public key twice |
| ProducerRegistry.FinalizerRegistry.DelFinKey | contracts/eosio.system/src/actions/3.producers.cpp:159-190 | Deletes or fails leaving every table as it was, exactly as the value-level action, and keeps the invariant |
| ProducerRegistry.FinalizerRegistry.EraseKey | contracts/eosio.system/src/actions/3.producers.cpp:180-189 | Removes the key, and the row if its count was one, which is lowered otherwise; the generator and the list stay |
| ProducerRegistry.FinalizerRegistry.ProposeWinners | contracts/eosio.system/src/functions/functions.producers.cpp:115-148 | The list becomes the active keys of exactly the winners' owners, also when the proposal is taken as unchanged by comparing ids and keys only |
| ProducerRegistry.FinalizerRegistry.UpdateElectedProducers | contracts/eosio.system/src/functions/functions.producers.cpp:85-149 | With no winner among 21 seats, or fewer than the last schedule had, nothing changes; otherwise the schedule of the winners, each with the authority that signs for it, goes to the host, its size is recorded if the host accepts it, and the stored list becomes the winners' active keys, with distinct public keys; the invariant is kept |
| ProducerRegistry.FinalizerRegistry.HandOver | contracts/eosio.system/src/functions/functions.producers.cpp:130-145 | Hands the schedule of the winners to the host, sorted by name, each with its registered authority if that has a nonzero threshold and otherwise with its single key; records the block time, and the number of winners only if the host accepts |
| ProducerRegistry.FinalizerRegistry.SwitchToSavanna | contracts/eosio.system/src/actions/3.producers.cpp:192-225 | Does what the value-level switch does or leaves everything: it succeeds if and only if nothing is proposed yet and the first producers of the index with a finalizer fill a schedule of at least one seat; then the list is their active keys, with distinct public keys |
| ProducerRegistry.FinalizerRegistry.ProposeFirst | contracts/eosio.system/src/actions/3.producers.cpp:223-224 | A first proposal succeeds if and only if it has a finalizer, and an empty one changes nothing |
| ProducerRegistry.SearchHitsIffListed | contracts/eosio.system/src/actions/3.producers.cpp:140-148 | On the sorted list, the position that binary search returns holds the id if and only if the id is listed, and then its entry |
| ProducerRegistry.ReplaceInList | contracts/eosio.system/src/actions/3.producers.cpp:149-155 | Overwriting one position of the list removes the old id's entry from the table it stands for, adds the new one, and leaves ids distinct |
| ProducerRegistry.FinalizerRegistry.InsertKey | contracts/eosio.system/src/actions/3.producers.cpp:77-102 | Adds the key under the next id and either a first row with it as the active key or one to the key count, modulo 2^32 |
| ProducerRegistry.EmptyListIffNothingListed | contracts/eosio.system/src/functions/functions.producers.cpp:18-21 | The emptiness test by which the contract tells whether Savanna is on is true exactly when no finalizer is proposed |
| ProducerRegistry.TableDeterminesList | contracts/eosio.system/src/functions/functions.producers.cpp:38-41 | Two stored lists that stand for the same table are equal entry by entry, because both are sorted by id |
| ProducerRegistry.SameKeysSameList | contracts/eosio.system/include/eosio.system.hpp:421-423 | The comparison that ignores names and weights never takes a changed proposal for an unchanged one |
| ProducerRegistry.EntriesAreCurrent | contracts/eosio.system/src/functions/functions.producers.cpp:115-115 | The entries collected for the winners have distinct ids and unit weights and are exactly the active keys of the winners' owners |
| ProducerRegistry.ScheduleIsSorted | contracts/eosio.system/src/functions/functions.producers.cpp:130-139 | The schedule is strictly increasing by name and holds each winner once with its signing authority and nobody else; no authority has threshold zero |
| ProducerRegistry.ScheduleSigns | contracts/eosio.system/include/eosio.system.hpp:332-340 | The schedule has one entry for each winner: with the authority that it registered, if that has a nonzero threshold, and otherwise with threshold one over its single key |
| ProducerRegistry.ScheduleMatchesFinalizers | contracts/eosio.system/src/functions/functions.producers.cpp:115-148 | Schedule and finalizer list cover the same owners, one authority for each scheduled producer, 21 at most |
| ProducerRegistry.EveryFinalizerIsReady | contracts/eosio.system/src/functions/functions.producers.cpp:110-113 | No finalizer row ever has an empty active key, so the check made just in case skips nobody |
| Election.Scan | contracts/eosio.system/src/functions/functions.producers.cpp:102-124 | The scan that stops early returns the first electable producers of the whole index, as many as there are seats |
| Election.StopIsFinal | contracts/eosio.system/src/functions/functions.producers.cpp:102-102 | Behind an inactive producer, or one without votes, the index holds nobody electable |
| Election.ElectionIsExact | contracts/eosio.system/src/functions/functions.producers.cpp:102-124 | Winners are active producers with votes and a finalizer row, as many as the seats or all of them, in non-increasing vote order without repetition, and no electable producer left out has more votes than a winner |
| Election.LosersRankBelow | contracts/eosio.system/src/functions/functions.producers.cpp:102-124 | An electable producer is left out only when all seats are taken by producers before it in the index |
| Election.SeatsFilled | contracts/eosio.system/src/functions/functions.producers.cpp:102-124 | The number of winners is the smaller of the seats and the number of electable producers |
| Election.QuorumsOverlap | contracts/eosio.system/src/functions/functions.producers.cpp:57-61 | The threshold of every policy is at most its number of finalizers, and any two sets of finalizers that reach it share more than a third of the weight |
| Election.QuorumIffFewMissing | contracts/eosio.system/src/functions/functions.producers.cpp:57-61 | A set of finalizers of a sound policy reaches its threshold if and only if those that are missing are fewer than a third of all |
| Sorting.SortIsStrict | contracts/eosio.system/src/functions/functions.producers.cpp:38-41 | Sorting entries with distinct ids yields the same entries in strictly increasing id order |
| Sorting.LowerBound | contracts/eosio.system/src/actions/3.producers.cpp:141-143 | The binary search splits the list into ids below the bound and ids not below it |
| LedgerSpec.RunConserves | contracts/twig.token/src/actions/user.cpp:77-109 | Over every run of issue, retire, transfer, open, close, setsupplies and rmvsupply whose accepted issues do not overflow: for each symbol the balances of all accounts add up to its supply, stored balances are positive, 0 <= supply < max_supply, symbols are valid, and both supply maps have the same symbols |
| LedgerSpec.RunSoundIff | contracts/twig.token/src/actions/contract.admin.cpp:16-28 | Over any run whatever, this holds in every state if and only if no accepted issue takes a supply out of 64 bits |
| LedgerSpec.ValidAmountsStayInRange | contracts/twig.token/src/actions/contract.admin.cpp:16-28 | If every issued amount is at most 2^62 - 1, no issue of any run overflows, so the conservation law holds over the whole run |
| LedgerSpec.TransferAcceptedIff | contracts/twig.token/src/actions/user.cpp:59-82 | A transfer is accepted if and only if it goes between two different accounts, of which the sender has a row and the receiver exists, and lists one to 99 assets of valid positive amounts whose totals the sender holds |
| LedgerSpec.OneAssetMoves | contracts/twig.token/src/actions/user.cpp:77-94 | A transfer of one asset takes exactly its amount of its symbol from the sender to the receiver, and nothing else from either |
| LedgerSpec.TransferKeepsRest | contracts/twig.token/src/actions/user.cpp:96-109 | Beside that, sender and receiver have rows afterwards, and every other row and both supply maps are as they were |
| LedgerSpec.IssueAcceptedIff | contracts/twig.token/src/actions/contract.admin.cpp:16-19 | An issue is accepted if and only if every symbol is listed, every amount positive, and every sum below the maximum as a signed 64-bit number |
| LedgerSpec.IssueIsExact | contracts/twig.token/src/actions/contract.admin.cpp:21-41 | An accepted issue within 64 bits adds exactly its amounts to the owner's holdings and to the supplies |
| LedgerSpec.RetireAcceptedIff | contracts/twig.token/src/actions/contract.admin.cpp:52-64 | Retiring is accepted if and only if the owner has a row and holds every amount, all of them positive; the check of the supply never fails then |
| LedgerSpec.RetireKeepsRest | contracts/twig.token/src/actions/contract.admin.cpp:66-76 | Retiring leaves the owner its row and every other account, all maxima and the list of symbols as they were |
| LedgerSpec.TransferMoves | contracts/twig.token/src/actions/user.cpp:77-94 | The sender loses the list's total of each symbol, the receiver gains it, and nobody else's holding changes, however often the list repeats a symbol |
| LedgerSpec.TransferKeepsInv | contracts/twig.token/src/actions/user.cpp:56-110 | A transfer keeps supply equal to the sum of balances and stored balances positive |
| LedgerSpec.TransferDependsOnTotals | contracts/twig.token/src/actions/user.cpp:77-94 | Two lists with the same totals are accepted together and leave the same ledger |
| LedgerSpec.TransferIgnoresOrder | contracts/twig.token/src/actions/user.cpp:77-94 | Reordering the list changes neither acceptance nor result |
| LedgerSpec.TransferBack | contracts/twig.token/src/actions/user.cpp:56-110 | Sending the same list back is accepted and restores the ledger |
| LedgerSpec.TwoHolders | contracts/twig.token/src/actions/user.cpp:92-92 | What any two accounts hold of a symbol together is at most its supply, so no addition of balances leaves 64 bits |
| LedgerSpec.OnlyExistingFungiblesAreHeld | contracts/twig.token/src/actions/contract.config.cpp:73-88 | A held symbol exists and is a valid one, and nobody holds more of it than its supply |
| LedgerSpec.IssueWithinRange | contracts/twig.token/src/actions/contract.admin.cpp:1-42 | An accepted issue within 64 bits keeps the conservation law and the bound by max_supply |
| LedgerSpec.IssueKeepsInvIff | contracts/twig.token/src/actions/contract.admin.cpp:16-28 | An accepted issue keeps the ledger sound if and only if no supply plus its issued amount exceeds the signed 64-bit maximum |
| LedgerSpec.IssueCanWrap | contracts/twig.token/src/actions/contract.admin.cpp:18-19 | In the sound state that a run of one setsupplies and one issue reaches, an issue of a positive 64-bit amount passes the check against max_supply and leaves a negative supply |
| LedgerSpec.ValidAmountsNeverOverflow | contracts/twig.token/src/actions/contract.admin.cpp:18-18 | Amounts up to 2^62 - 1 never take a supply out of 64 bits |
| LedgerSpec.RetireKeepsInv | contracts/twig.token/src/actions/contract.admin.cpp:44-77 | Retiring keeps the conservation law and touches no other account |
| LedgerSpec.RetireAt | contracts/twig.token/src/actions/contract.admin.cpp:55-70 | Retiring takes exactly the amounts from the owner's holdings and from the supplies |
| LedgerSpec.RetireUndoesIssue | contracts/twig.token/src/actions/contract.admin.cpp:1-77 | Retiring what was just issued to an existing account restores the whole ledger |
| LedgerSpec.OpenKeepsInv | contracts/twig.token/src/actions/user.cpp:1-12 | Opening an account changes no holding and keeps the conservation law |
| LedgerSpec.OpenIsExact | contracts/twig.token/src/actions/user.cpp:1-12 | After opening the account has a row, its old one or an empty one, and nothing else has changed |
| LedgerSpec.CloseDestroysNothing | contracts/twig.token/src/actions/user.cpp:14-27 | Closing succeeds if and only if the account exists and its row is empty, so no holding changes |
| LedgerSpec.CloseIsExact | contracts/twig.token/src/actions/user.cpp:14-27 | After closing the account has no row, and nothing else has changed |
| LedgerSpec.SetSuppliesKeepsInv | contracts/twig.token/src/actions/contract.config.cpp:53-71 | Listing new symbols keeps the conservation law |
| LedgerSpec.SetSuppliesIsExact | contracts/twig.token/src/actions/contract.config.cpp:60-70 | Listing is accepted if and only if every symbol is valid and new and every maximum a valid positive amount; then each is listed with its maximum and supply zero, and nothing else changes |
| Common.ValidSymbolIff | contracts/twig.token/src/actions/contract.config.cpp:62-64 | A symbol is valid if and only if it is the code of one or more capital letters above one byte of precision, within 64 bits |
| LedgerSpec.RmvSupplyOrphansNobody | contracts/twig.token/src/actions/contract.config.cpp:73-88 | A symbol that can be removed has no holder, and removal keeps the conservation law |
| LedgerSpec.RmvSupplyIsExact | contracts/twig.token/src/actions/contract.config.cpp:80-87 | Removal is accepted if and only if every symbol is listed with supply zero, and takes exactly these symbols from both maps |
| Token.TokenContract.constructor | contracts/twig.token/src/actions/contract.config.cpp:1-13 | The empty tables are a sound ledger |
| Token.TokenContract.Issue | contracts/twig.token/src/actions/contract.admin.cpp:1-42 | Does what the value-level issue does or leaves everything; afterwards the ledger is sound if and only if the issue failed or did not overflow |
| Token.TokenContract.Retire | contracts/twig.token/src/actions/contract.admin.cpp:44-77 | Does what the value-level retire does or leaves everything, and stays sound |
| Token.TokenContract.Open | contracts/twig.token/src/actions/user.cpp:1-12 | Adds an empty row if there is none, and stays sound |
| Token.TokenContract.Close | contracts/twig.token/src/actions/user.cpp:14-27 | Does what the value-level close does or leaves everything, and stays sound |
| Token.TokenContract.SetSupplies | contracts/twig.token/src/actions/contract.config.cpp:53-71 | Does what the value-level action does or leaves everything, and stays sound |
| Token.TokenContract.RmvSupply | contracts/twig.token/src/actions/contract.config.cpp:73-88 | Does what the value-level action does or leaves everything, and stays sound |
| Token.TokenContract.Transfer | contracts/twig.token/src/actions/user.cpp:56-110 | Accepts exactly the lists whose totals the sender covers, moves exactly these totals, otherwise leaves everything, and stays sound |
| Token.IssueAll | contracts/twig.token/src/actions/contract.admin.cpp:16-28 | The loop accepts exactly when every pair is issuable on the initial supply, and then has added every pair to supply and row |
| Token.IssueEntry | contracts/twig.token/src/actions/contract.admin.cpp:17-27 | One pair passes the three checks exactly when it is issuable, with 64-bit sums for supply and row |
| Token.RetireAll | contracts/twig.token/src/actions/contract.admin.cpp:55-70 | The loop accepts exactly when supply and row cover every pair, and then has subtracted each and erased what became zero |
| Token.AllZero | contracts/twig.token/src/actions/user.cpp:22-24 | The loop passes exactly when every entry of the row is zero |
| Token.ListAll | contracts/twig.token/src/actions/contract.config.cpp:60-68 | The loop accepts exactly valid, positive maxima of new, valid symbols, and then has listed each with supply zero |
| Token.UnlistAll | contracts/twig.token/src/actions/contract.config.cpp:80-86 | The loop accepts exactly listed symbols of zero supply, and then has removed each from both maps |
| Token.MoveEntry | contracts/twig.token/src/actions/user.cpp:77-93 | One entry passes the four checks exactly when its asset is valid and its amount positive and covered, and no 64-bit operation wraps |
| Token.MoveAll | contracts/twig.token/src/actions/user.cpp:77-94 | The loop, with its shrinking and erased entries, accepts a list if and only if all amounts are valid and the sender's initial row covers the total of every symbol; the rows then differ by exactly these totals |
| Token.MovedStep | contracts/twig.token/src/actions/user.cpp:77-94 | If an entry fails its check on the shrunken row, the whole list is not covered by the initial row; if it passes, both rows differ from the initial ones by the totals so far |
| BankSpec.RunKeepsInv | contracts/eosio.bank/src/eosio.bank.cpp:15-94 | In every reachable state, for each producer: vested is what was deposited in this epoch, unvesting_total what was deposited in the last one, what was paid is all older deposits plus unvested, and 0 <= unvested <= unvesting_total |
| BankSpec.ReleaseIsAllOrNothing | contracts/eosio.bank/src/eosio.bank.cpp:42-53 | Because both ratios are integer divisions, a deposit releases everything that is left of the last epoch once a chunk of the epoch has been found, and nothing before |
| BankSpec.ReleaseIsLinearIff | contracts/eosio.bank/src/eosio.bank.cpp:42-53 | A deposit releases what the same formula with uncut ratios would, truncated once, if and only if no chunk of the epoch has been found, or all have, or nothing is left of the row |
| BankLimits.ReleaseRunsAhead | contracts/eosio.bank/src/eosio.bank.cpp:42-53 | For any first deposit and any number of found chunks between none and all, a run on which the first deposit of the second epoch makes the bank pay all of it, more than the linear amount |
| BankSpec.ReleaseInRange | contracts/eosio.bank/src/eosio.bank.cpp:46-53 | A release is never negative and never more than what is left |
| BankSpec.DepositKeepsInv | contracts/eosio.bank/src/eosio.bank.cpp:30-62 | A deposit keeps the accounting of every producer |
| BankSpec.DepositIsExact | contracts/eosio.bank/src/eosio.bank.cpp:27-62 | A deposit is booked for its beneficiary in the current epoch, with its amount, in its row and in nobody else's; nobody else is paid |
| BankSpec.EpochKeepsInv | contracts/eosio.bank/src/eosio.bank.cpp:74-93 | The end of an epoch keeps the accounting: it pays what is left of the last epoch's deposits and starts on this epoch's |
| BankSpec.EpochPaid | contracts/eosio.bank/src/eosio.bank.cpp:76-82 | The walk over the table pays each producer exactly what is due to it, once |
| BankSpec.PayoutsFollowNames | contracts/eosio.bank/src/eosio.bank.cpp:75-82 | The payouts at the end of an epoch go out in the order of the names, each positive and to a producer with a row of the last epoch |
| BankSpec.OnEpochIsIdempotent | contracts/eosio.bank/src/eosio.bank.cpp:77-77 | Running onepoch again in the same epoch changes nothing and pays nothing |
| BankSpec.ReleaseWindow | contracts/eosio.bank/src/eosio.bank.cpp:40-93 | At any moment what a producer was paid lies between all its deposits before the last epoch and all before this epoch: nothing is paid in the epoch of its deposit |
| BankSpec.PaidByTheSecondEpochChange | contracts/eosio.bank/src/eosio.bank.cpp:40-93 | In any run, everything deposited for a producer by some moment is paid to it once the epoch has changed twice |
| BankContract.VestingBank.constructor | contracts/eosio.bank/src/eosio.bank.cpp:25-25 | The empty table satisfies the accounting |
| BankContract.VestingBank.TokenDeposit | contracts/eosio.bank/src/eosio.bank.cpp:15-63 | Ignores every transfer that is not a deposit; books one with memo team_share for the team account and one with producer_share for the lucky producer, with exactly its amount; fails for any other memo and without a lucky producer; keeps the accounting |
| BankContract.VestingBank.Book | contracts/eosio.bank/src/eosio.bank.cpp:40-61 | Row and release are those of the release formula, for any row and any number of chunks |
| BankContract.VestingBank.OnEpoch | contracts/eosio.bank/src/eosio.bank.cpp:65-94 | Runs if and only if it is called for the current epoch, rolls every row and keeps the accounting, whether the epoch just advanced or not |
| BankContract.VestingBank.Walk | contracts/eosio.bank/src/eosio.bank.cpp:74-93 | The in-place walk rolls every row of the last epoch and sends the payouts in primary-key order |
| BankContract.VestingBank.WalkRow | contracts/eosio.bank/src/eosio.bank.cpp:77-90 | A row of the last epoch is paid what is left and rolled; any other row stays and nothing is paid |
| Solvency.BankStaysSolvent | contracts/eosio.bank/src/eosio.bank.cpp:15-94 | Over every run of token transfers with their notifications, other token actions, epoch ends and payouts, in which anything else that leaves the bank is covered by its surplus: the bank's TWIG balance covers the sum of all vesting rows plus all queued payouts, and the next payout passes every check of the ledger if its receiver exists |
| Solvency.SpendingIsSolventIff | contracts/eosio.bank/src/eosio.bank.cpp:15-94 | Any other transfer out of the bank's account leaves it solvent if and only if it is covered by what the bank holds beyond all rows and queued payouts |
| Solvency.PayoutGoesThrough | contracts/eosio.bank/src/eosio.bank.cpp:80-81 | In any solvent state the ledger accepts the next queued payout to an existing account |
| Solvency.PayOutIsExact | contracts/eosio.bank/src/eosio.bank.cpp:80-81 | A payout brings its receiver exactly its amount and takes it from the bank; nobody else's holding changes |
| Solvency.NotificationIsExact | contracts/eosio.bank/src/eosio.bank.cpp:17-28 | A transfer reaches the bank's table if and only if it is one asset of the core symbol from the chunks account to the bank with a memo not to be ignored; then it is booked for the team account or the lucky producer as the memo says, and any other memo undoes it |
| Solvency.DepositBooksItsAmount | contracts/eosio.bank/src/eosio.bank.cpp:40-61 | A deposit raises debts plus queued payouts by exactly its amount |
| Solvency.EpochMovesDebts | contracts/eosio.bank/src/eosio.bank.cpp:74-93 | The end of an epoch turns debts into queued payouts without changing their sum |
| Solvency.TransferStep | contracts/eosio.bank/src/eosio.bank.cpp:15-63 | A transfer with the notification it triggers keeps both contracts sound and the bank solvent |
| Tokenomics.CountersClosedForm | contracts/eosio.system/src/functions/functions.tokenomics.cpp:7-17 | With C = 60750 chunks an epoch: after h hits, epoch is h / (C + 1) + 1 as a 32-bit number and chunks_remaining is C - h mod (C + 1) |
| Tokenomics.LuckyNumber.constructor | contracts/eosio.system/include/eosio.system.hpp:254-266 | The initial record is the counters after no hit |
| Tokenomics.LuckyNumber.OnALuckyBlock | contracts/eosio.system/src/functions/functions.tokenomics.cpp:1-20 | Exactly a roll below 16 is a hit; every (C + 1)-th hit starts an epoch and every other finds a chunk; the counters stay those of the number of hits, and the totals wrap at their widths |
| Tokenomics.IssuingChunksClosedForm | contracts/eosio.system/src/actions/4.tokenomics.cpp:70-70 | Of the first h hits, up to the wrap of the 32-bit epoch counter, h - h / (C + 1) find a chunk that issues tokens during the first twenty epochs, and 20 C in all after these |
| Tokenomics.IssuingChunksCappedIff | contracts/eosio.system/src/actions/4.tokenomics.cpp:70-70 | At most 20 C chunks issue tokens if and only if the hits have not yet wrapped the 32-bit epoch counter |
| Tokenomics.EmissionIsCapped | contracts/eosio.system/src/actions/4.tokenomics.cpp:69-81 | Whatever the rolls, all chunks found before that wrap together never ask for more than max_supply |
| Tokenomics.IssueIsTheLargest | contracts/eosio.system/include/eosio.system.hpp:77-79 | The amount of a chunk is the largest that all 20 C chunks could issue alike within max_supply |
| Tokenomics.OnlyHitsMatter | contracts/eosio.system/src/functions/functions.tokenomics.cpp:3-19 | For any sequence of rolls the counters are those of the number of hits among them |
| Tokenomics.RollsNeverOverissue | contracts/eosio.system/src/actions/4.tokenomics.cpp:69-81 | For any sequence of rolls with no more hits than that, the amounts that the chunks ask to issue, added up block by block, stay within max_supply |
| Tokenomics.SplitIsTight | contracts/eosio.system/src/actions/4.tokenomics.cpp:83-104 | The four shares of any total add up to at most the total and leave at most three units; all are positive if and only if the total is at least 400 |
| Tokenomics.SharesMatchWeights | contracts/eosio.system/include/eosio.system.hpp:81-86 | Each share is the largest whole amount within its weight of 97.5 percent, or of 45, 45 and 10 percent of the other 2.5 |
| Tokenomics.QueueChunk | contracts/eosio.system/src/actions/4.tokenomics.cpp:54-105 | Fails exactly when the chunks account has no row; otherwise queues the issue, if its epoch has one, and then the four shares of balance plus issue, within 64 bits |
| Tokenomics.SendOne | contracts/eosio.system/src/actions/4.tokenomics.cpp:86-87 | One share goes through if and only if it is positive and covered by the chunks account, which loses it to its receiver alone |
| Tokenomics.SplitGoesThroughIff | contracts/eosio.system/src/actions/4.tokenomics.cpp:83-104 | All four transfers pass the ledger's checks in order if and only if the total is at least 400; the receivers get their shares and the chunks account keeps at most three units |
| Tokenomics.ChunkCompletesIff | contracts/eosio.system/src/actions/4.tokenomics.cpp:54-105 | A chunk completes if and only if its issue, if any, is positive and keeps supply below max_supply and the total reaches 400; then the chunks account keeps at most three units |
| Tokenomics.QueueShares | contracts/eosio.system/src/actions/4.tokenomics.cpp:83-104 | The four shares are queued in order, each of the whole total |
| Rewards.RewardCompletesIff | contracts/eosio.system/src/actions/4.tokenomics.cpp:54-105 | Across the contracts, with the bank's notification on team and producer share and the payouts it sends in between: a chunk completes if and only if its issue is accepted, the total reaches 400 and there is a lucky producer; then the bank is solvent with an empty queue, debts plus payouts since have grown by exactly the two shares, and beside what payouts brought back the chunks account keeps at most three units |
| Rewards.RewardGoesToItsOwners | contracts/eosio.system/src/actions/4.tokenomics.cpp:83-104 | A completed chunk is booked at the bank for the team account and for the lucky producer, each with exactly its share in the current epoch, and brings board and world accounts theirs, beside what payouts bring them |
| Rewards.ShareStep | contracts/eosio.system/src/actions/4.tokenomics.cpp:86-99 | One share with its notification and the payouts that follow goes through if and only if it is positive and the bank finds a beneficiary; it moves its amount, and when the bank receives it, it is booked for team or lucky producer as its memo says and claims grow by it |
| Rewards.SettleWorks | contracts/eosio.bank/src/eosio.bank.cpp:55-56 | A solvent bank carries out its whole queue and stays solvent |
| Rewards.SettlePays | contracts/eosio.bank/src/eosio.bank.cpp:55-56 | Doing so, it brings every other account exactly what the queue holds for it |
| Emission.ChunkAcceptedIff | contracts/eosio.system/src/actions/4.tokenomics.cpp:54-105 | A chunk of an issuing epoch completes if and only if its amount is positive and keeps supply below max_supply and 400 units are there to split; then the supply has grown by exactly that amount |
| Emission.EpochEndWorks | contracts/eosio.system/src/functions/functions.tokenomics.cpp:14-18 | The end of an epoch always completes, with all that the bank then pays, and moves the epoch by one |
| Emission.HitStep | contracts/eosio.system/src/functions/functions.tokenomics.cpp:7-19 | An accepted hit moves the counters by one chunk or one epoch and the supply by the amount of a chunk exactly when it issues |
| Emission.SupplyFollowsChunks | contracts/eosio.system/src/actions/4.tokenomics.cpp:69-81 | Over any run of blocks, with other actions in between that leave the core supply alone, the supply is that of the beginning plus one amount for every issuing chunk accepted so far |
| Emission.NextChunkAcceptedIff | contracts/twig.token/src/actions/contract.admin.cpp:18-18 | With amounts of at least 400, the k-th issuing chunk is accepted if and only if the supply of the beginning plus k amounts is below max_supply |
| Emission.RefusedForever | contracts/eosio.system/src/actions/4.tokenomics.cpp:36-45 | A refused chunk undoes its block, so with amounts of at least 400 every later hit is refused as well and counters, epoch and supply never change again |
| Emission.ChunksAreFound | contracts/eosio.system/src/functions/functions.tokenomics.cpp:10-16 | The counters tell exactly how many issuing chunks have been accepted, refused ones left out |
| Emission.RoomMeansNoRefusal | contracts/eosio.system/src/actions/4.tokenomics.cpp:69-81 | If the supply of the beginning plus the amounts of all 20 C chunks is below max_supply, no issuing chunk is ever refused |
| Emission.NoRoomMeansNoEnd | contracts/eosio.system/src/actions/4.tokenomics.cpp:69-81 | If it is not, no run ever leaves the issuing epochs |
| Emission.RoomForAllIff | contracts/eosio.system/include/eosio.system.hpp:77-79 | There is that room if and only if the supply of the beginning is less than max_supply modulo 20 C |
| Emission.EvenNoSupplyLeavesNoRoom | contracts/twig.token/src/actions/contract.config.cpp:53-71 | A run of two actions reaches a beginning without any supply from which the last chunk is still refused |
| MsigSpec.RunKeepsInv | contracts/eosio.msig/src/eosio.msig.cpp:39-226 | Through every mix of propose, approve, unapprove, cancel, exec and invalidate in non-decreasing time: whenever the approvals that count authorize a proposal, its earliest execution time is set |
| MsigSpec.ProposeKeepsInv | contracts/eosio.msig/src/eosio.msig.cpp:39-79 | Proposing keeps the invariant: whatever levels are requested, nothing counts for the new proposal yet and no other becomes authorized |
| MsigSpec.ApproveKeepsInv | contracts/eosio.msig/src/eosio.msig.cpp:81-120 | Approving keeps the invariant: if the approvals now authorize the proposal, its execution time is set afterwards |
| MsigSpec.UnapproveKeepsInv | contracts/eosio.msig/src/eosio.msig.cpp:122-155 | Withdrawing keeps the invariant: if the remaining approvals still authorize the proposal, its execution time stays set |
| MsigSpec.InvalidateKeepsInv | contracts/eosio.msig/src/eosio.msig.cpp:211-226 | An invalidation takes every approval of its account so far out of the count, in every proposal, and authorizes nothing new |
| MsigSpec.LevelsAreConserved | contracts/eosio.msig/src/eosio.msig.cpp:98-101 | Approving and withdrawing never lose, add or duplicate a level: requested and provided together stay the same multiset |
| MsigSpec.ExecutionAcceptedIff | contracts/eosio.msig/src/eosio.msig.cpp:178-202 | At any step of any run an execution is accepted if and only if the levels that count then authorize the transaction, it has not expired and has no context-free actions, and its execution time has come or, with none set, it has no delay |
| MsigSpec.ExecIsExact | contracts/eosio.msig/src/eosio.msig.cpp:178-209 | The same in any state whose proposals have their rows of approvals; an accepted execution removes proposal and approvals and nothing else |
| MsigSpec.ExecWithoutApprovals | contracts/eosio.msig/src/eosio.msig.cpp:20-37 | Without a row of approvals nothing counts, so a proposal is executed only if the host authorizes it without any level |
| MsigSpec.LevelCountsIff | contracts/eosio.msig/src/eosio.msig.cpp:26-33 | A level counts if and only if one of its approvals is later than the last invalidation by its actor |
| MsigSpec.ProposeIsExact | contracts/eosio.msig/src/eosio.msig.cpp:39-79 | A proposal is accepted if and only if its name is free, it has not expired, has no context-free actions and the requested levels authorize it; it is stored with all of them requested, none provided and no execution time |
| MsigSpec.ApproveIsExact | contracts/eosio.msig/src/eosio.msig.cpp:81-120 | An approval is accepted if and only if the level is still requested, the hash is right and the proposal is not an old one with a delay; the level is then provided at this time, and an execution time not yet set becomes the delay from now if the levels that count authorize |
| MsigSpec.UnapproveAcceptedIff | contracts/eosio.msig/src/eosio.msig.cpp:126-154 | A withdrawal is accepted if and only if the level is provided and the proposal is not an old one with a delay |
| MsigSpec.UnapproveIsExact | contracts/eosio.msig/src/eosio.msig.cpp:131-149 | The level is requested again, and a set execution time is taken back if and only if the levels that count no longer authorize |
| MsigSpec.CancelIsExact | contracts/eosio.msig/src/eosio.msig.cpp:157-176 | The proposer may cancel at any time and anybody else once the transaction has expired; proposal and approvals are removed and nothing else |
| MsigSpec.InvalidateIsExact | contracts/eosio.msig/src/eosio.msig.cpp:211-226 | An invalidation sets the account's time to now and changes nothing else |
| MsigSpec.WaitingWasStarted | contracts/eosio.msig/src/eosio.msig.cpp:108-116 | A set execution time was set by an approve step, in the same life of the proposal, that found it authorized, and is that step's time plus the delay |
| MsigSpec.DelayIsWaitedOut | contracts/eosio.msig/src/eosio.msig.cpp:198-202 | An executed transaction with a delay was found authorized by an approve step at least the delay before, in the same life of the proposal, and the waiting time ran from then on |
| MsigSpec.AuthorizedWhileWaiting | contracts/eosio.msig/src/eosio.msig.cpp:106-226 | An executed transaction with a delay was authorized in every state of its waiting time if and only if every invalidation meanwhile left approvals that authorize it |
| MsigSpec.AuthorizedThroughoutIff | contracts/eosio.msig/src/eosio.msig.cpp:106-226 | From an authorizing state on, a proposal whose execution time stays set is authorized in every state if and only if every invalidation leaves approvals that authorize it |
| MsigSpec.StaysAuthorizedIff | contracts/eosio.msig/src/eosio.msig.cpp:142-150 | While a set execution time stays, a step keeps the proposal authorized if and only if it is not an invalidation after which the rest no longer authorizes |
| MsigSpec.InvalidationLeaves | contracts/eosio.msig/src/eosio.msig.cpp:28-33 | After an invalidation exactly the levels of other actors that counted before still count |
| MsigLimits.InvalidationDoesNotStopTheDelay | contracts/eosio.msig/src/eosio.msig.cpp:198-226 | For any delay, a run in which the only approval is invalidated at once, another one is given when the delay is over and execution succeeds at that moment, although nothing authorized the proposal while it waited |
| MsigSpec.ApprovalWasGranted | contracts/eosio.msig/src/eosio.msig.cpp:98-101 | Every provided approval was granted at its recorded time by an approve step in the same life of the proposal, and not withdrawn since |
| MsigSpec.InvalidationsAreKept | contracts/eosio.msig/src/eosio.msig.cpp:211-226 | The stored time of an account is not before any of its invalidations |
| MsigSpec.CountedApprovalsAreFresh | contracts/eosio.msig/src/eosio.msig.cpp:28-33 | Every approval that an execution counts was granted strictly after every invalidation by its actor |
| MsigSpec.ExecutedOnce | contracts/eosio.msig/src/eosio.msig.cpp:204-208 | After an execution the proposal exists again only if it was proposed again in between |
| MsigSpec.ProposalWasProposed | contracts/eosio.msig/src/eosio.msig.cpp:65-78 | Every stored proposal comes from one propose step: its transaction is the one proposed there and authorized by the requested levels, and requested and provided levels together are exactly the levels requested there |
| MsigSpec.ExecutedAsProposed | contracts/eosio.msig/src/eosio.msig.cpp:178-209 | What is executed is the transaction that was proposed in the same life of the proposal, and every level that counts for it was requested there |
| MsigSpec.Find | contracts/eosio.msig/src/eosio.msig.cpp:95-95 | The position of the first entry with the level, or the length if there is none |
| MultisigContract.Multisig.constructor | contracts/eosio.msig/src/eosio.msig.cpp:39-79 | The tables start empty |
| MultisigContract.Multisig.CountingLevels | contracts/eosio.msig/src/eosio.msig.cpp:26-33 | Collects exactly the levels whose approval is later than the last invalidation of its actor |
| MultisigContract.Multisig.IsAuthorized | contracts/eosio.msig/src/eosio.msig.cpp:11-15 | The host's answer on exactly the levels that count |
| MultisigContract.Multisig.Propose | contracts/eosio.msig/src/eosio.msig.cpp:39-79 | Does what the value-level action does or leaves every table as it was |
| MultisigContract.Multisig.Approve | contracts/eosio.msig/src/eosio.msig.cpp:81-120 | Does what the value-level action does or leaves every table as it was, also when an old delayed proposal fails after its lists were changed |
| MultisigContract.Multisig.Unapprove | contracts/eosio.msig/src/eosio.msig.cpp:122-155 | Does what the value-level action does or leaves every table as it was |
| MultisigContract.Multisig.Cancel | contracts/eosio.msig/src/eosio.msig.cpp:157-176 | Does what the value-level action does or leaves every table as it was |
| MultisigContract.Multisig.Exec | contracts/eosio.msig/src/eosio.msig.cpp:178-209 | Sends the stored transaction exactly when the value-level execution is accepted, and removes proposal and approvals |
| MultisigContract.Multisig.Invalidate | contracts/eosio.msig/src/eosio.msig.cpp:211-226 | Overwrites the account's invalidation time and nothing else |
| MultisigContract.FindLevel | contracts/eosio.msig/src/eosio.msig.cpp:129-129 | The search stops at the first entry with the level |
| BlockWindow.BlockTable.constructor | contracts/eosio.system/src/functions/functions.producers.cpp:191-191 | The table starts empty |
| BlockWindow.BlockTable.AddToBlockInfoTable | contracts/eosio.system/src/functions/functions.producers.cpp:186-207 | Fails on a recorded height, otherwise adds the row and erases the lowest prunable rows, two at most |
| BlockWindow.BlockTable.EraseUpTo | contracts/eosio.system/src/functions/functions.producers.cpp:202-206 | The loop erases exactly the lowest rows up to the limit, as many as allowed |
| BlockWindow.WindowHolds | contracts/eosio.system/src/functions/functions.producers.cpp:186-207 | For any strictly increasing heights, gaps allowed: after every step at most ten rows, all recorded ones, and no recorded positive height among the last ten is lost or changed |
| BlockWindow.ConsecutiveWindow | contracts/eosio.system/src/functions/functions.producers.cpp:186-207 | For consecutive heights the table is exactly the last ten blocks, or all of them while fewer, although a step erases two rows at most |
| BlockWindow.NewRowStaysIff | contracts/eosio.system/src/functions/functions.producers.cpp:200-206 | A row just recorded stays if and only if its height is not zero |
| BlockWindow.AddBlockIsExact | contracts/eosio.system/src/functions/functions.producers.cpp:186-207 | A block is recorded if and only if its height is new; of the rows ten or more below it, and of any at height zero, the lowest two are erased, or all if there are fewer, and every other row is as it was |
| BlockWindow.PruneExact | contracts/eosio.system/src/functions/functions.producers.cpp:202-206 | When no more rows are prunable than may be erased, exactly the rows above the limit stay |
| BlockWindow.BatchStartUnique | contracts/eosio.system/src/functions/functions.producers.cpp:243-246 | The computed start is the only height at a whole number of batches after the offset and less than a batch before the end |
| BlockWindow.LookupIsExact | contracts/eosio.system/src/functions/functions.producers.cpp:209-289 | For every table, offset and size: a lookup succeeds if and only if the latest row and the row of the unique batch start exist in the supported version, and then returns these two rows' heights and times |
| BlockWindow.LookupErrorsAreExact | contracts/eosio.system/src/functions/functions.producers.cpp:213-279 | The error tells why: invalid input exactly for size zero, unsupported version exactly when the latest row or the row of the batch start has another version, insufficient data otherwise |
| BlockWindow.FullWindowAlwaysFound | contracts/eosio.system/src/functions/functions.producers.cpp:209-289 | On a full window of ten consecutive blocks every batch of 1 to 10 blocks whose offset is not in the future is found, with its unique start |
| BlockWindow.HeightRoundTrip | contracts/eosio.system/src/functions/functions.producers.cpp:179-184 | The height read from a block id is the one whose big-endian bytes it starts with |
| NameAuction.RunKeepsInv | contracts/eosio.names/src/eosio.names.cpp:65-139 | Over every run of bids and refunds: per name, bids taken in equal high bid plus refunds owed plus refunds paid; per bidder, what was given is its standing bid, owed or returned; every stored amount is a valid asset; and after k overbids 10^k times the high bid is at least 11^k times the first, strictly for k > 0 |
| NameAuction.OutbidsByATenth | contracts/eosio.names/src/eosio.names.cpp:101-101 | The check in integers is strict: an accepted overbid is more than 1.1 times the high bid |
| NameAuction.BidIsAcceptedIff | contracts/eosio.names/src/eosio.names.cpp:65-109 | A bid is accepted if and only if the name is a suffix, not empty, clear in its last nine bits and no account, the amount is a positive valid one of the core symbol and, on top of a bid, exceeds it by more than its truncated tenth, is somebody else's and makes a valid refund |
| NameAuction.BidIsExact | contracts/eosio.names/src/eosio.names.cpp:89-122 | An accepted bid becomes the high bid of its name; who held the old one is owed it on top of what was owed; every other bid and refund is as it was |
| NameAuction.RefundIsExact | contracts/eosio.names/src/eosio.names.cpp:125-139 | A refund is accepted if and only if one is owed, and takes away that row and nothing else |
| NameAuction.FirstBidKeepsInv | contracts/eosio.names/src/eosio.names.cpp:92-98 | A first bid keeps the accounts of every name and bidder |
| NameAuction.OverbidKeepsInv | contracts/eosio.names/src/eosio.names.cpp:99-122 | An overbid moves the old high bid to its bidder's refunds, adding to what is owed there already, and keeps every account |
| NameAuction.RefundSum | contracts/eosio.names/src/eosio.names.cpp:107-109 | In a sound auction the checked addition to a refund is the true sum |
| NameAuction.RefundFitsWithinTaken | contracts/eosio.names/src/eosio.names.cpp:104-109 | While what was taken for a name less what was paid back is a valid amount, an overbid never fails for the refund that it makes due |
| AuctionSolvency.AuctionStaysSolvent | contracts/eosio.names/src/eosio.names.cpp:65-139 | Over every run of bids and refunds with their payments and of other token actions, in which anything else that leaves the auction is covered by its surplus: the auction's balance covers all high bids and refunds, every refund to an existing account goes through, and no bid fails for the refund that it makes due |
| AuctionSolvency.BidAcceptedIff | contracts/eosio.names/src/eosio.names.cpp:65-123 | In any solvent state a bid with its payment is accepted if and only if the name is a suffix, not empty, clear in its last nine bits and no account, the symbol is the core symbol, the bidder is not the auction and holds the positive amount, and a bid on the name is somebody else's and exceeded by more than its truncated tenth: the refund never stands in the way |
| AuctionSolvency.BidPays | contracts/eosio.names/src/eosio.names.cpp:80-87 | An accepted bid takes its amount from the bidder to the auction's account and changes no other balance |
| AuctionSolvency.RefundGoesThrough | contracts/eosio.names/src/eosio.names.cpp:125-139 | In any solvent state a refund with its payment goes through if and only if it is owed and its account exists |
| AuctionSolvency.RefundPays | contracts/eosio.names/src/eosio.names.cpp:130-138 | A refund brings its bidder exactly what was owed and takes it from the auction's account; afterwards it is no longer owed |
| AuctionSolvency.RefundAlwaysFits | contracts/eosio.names/src/eosio.names.cpp:104-109 | In any solvent state the addition to the old bidder's refund stays a valid amount |
| NameAuction.RefundKeepsInv | contracts/eosio.names/src/eosio.names.cpp:125-139 | A refund pays exactly what was owed and keeps every account |
| NameAuction.OverbidsAreLogarithmic | contracts/eosio.names/src/eosio.names.cpp:101-101 | A high bid below 2^j was overbid fewer than 8 j times, whoever bids |
| NameAuction.OverbidsAreBounded | contracts/eosio.names/src/eosio.names.cpp:89-122 | In no run is a name overbid 496 times |
| NameAuction.Names.constructor | contracts/eosio.names/src/eosio.names.cpp:65-70 | Without bids every account is settled |
| NameAuction.Names.PlaceBid | contracts/eosio.names/src/eosio.names.cpp:65-123 | Accepts exactly the bids that pass the checks, does what the value-level bid does or leaves everything, and keeps every account |
| NameAuction.Names.ReplaceHighBid | contracts/eosio.names/src/eosio.names.cpp:104-121 | Adds the old high bid to its bidder's refund, whether one is owed or not, and installs the new one; were that sum not a valid asset, nothing would change and the bid would fail |
| NameAuction.Names.AddRefund | contracts/eosio.names/src/eosio.names.cpp:104-115 | The refund grows by the amount if the 64-bit sum is a valid asset, and stays otherwise |
| NameAuction.Names.PlaceFirst | contracts/eosio.names/src/eosio.names.cpp:92-98 | Installs the first bid of a name and touches no other |
| NameAuction.Names.PayRefund | contracts/eosio.names/src/eosio.names.cpp:128-138 | Erases the row and returns exactly its amount |
| NameAuction.Names.Refund | contracts/eosio.names/src/eosio.names.cpp:125-139 | Pays exactly the owed amount and erases the row, or fails leaving everything |

## Left out

- Authorizations (`require_auth`, `has_auth`), RAM payers, notifications other than the bank's, memos other than those that choose the vesting row, and serialization.
- BLS decoding, proof of possession and SHA-256: decoded keys and the verdict on the proof are inputs, and hashing of keys is taken as injective.
- Host calls `set_finalizers` and `set_proposed_producers`: recorded in the order in which they are made; whether the host accepts a schedule is an input.
- The host's authorization check in the multisig contract: any function of transaction and set of levels; the run theorems ask that more levels authorize no less and that no levels authorize nothing.
- The producers table: any index with non-negative votes, because no action of the repository raises votes. `regproducer` and `unregprod` are not modelled, and a schedule lists names with signing authorities but no locations or urls.
- Floating point: votes are order-preserving integers and weights the exact rationals that their constants denote, truncated to amounts; rounding is not modelled, nor is the conversion to double at contracts/eosio.bank/src/eosio.bank.cpp:48 for totals above 2^53.
- Randomness: the roll is any number below sixteen times the odds; `RandomnessProvider`, `feedthebeast` and `process_rng_calls` have no functional specification.
- `onblock` as a whole: it writes back the copy of `global` that it read at entry (contracts/eosio.system/src/actions/4.tokenomics.cpp:16, 41 and 44), so schedule size and time are stated for `update_elected_producers`.
- A missing `lastpropfins` row: modelled as the empty list, which is what the code at contracts/eosio.system/src/functions/functions.producers.cpp:28 sets out to return, although the assignment there empties the optional that line 33 reads.
- RegistrySpec.RunKeepsInv: assumes that every registration of the run finds room in both counters; `ShortRunsAreSound` removes the assumption below 2^32 registrations and `RunSoundIff` gives the exact condition.
- RegistrySpec.IdsAreNeverReused: assumes the same room in both counters, as does `IdsIncrease`; past that the generator starts again from zero (`GeneratorCanRestart`).
- RegistrySpec.SavannaIsFinal: assumes safe registrations, as do `SwitchSucceedsOnce` and `RunKeysDistinctIff`.
- LedgerSpec.RunConserves: assumes that no accepted issue of the run overflows 64 bits, which `RunSoundIff` shows to be the exact condition; `ValidAmountsStayInRange` shows that valid amounts never do.
- LedgerSpec.RetireUndoesIssue: for an account that exists before the issue; otherwise an empty row stays.
- Tokenomics.EmissionIsCapped: until the 32-bit epoch counter wraps around, after which the code issues again (`IssuingChunksCappedIff`).
- Tokenomics.IssuingChunksClosedForm: until that wrap-around, likewise.
- Tokenomics.RollsNeverOverissue: until that wrap-around, likewise, and with every chunk taken as accepted; refused ones are in `Emission`.
- Emission.NextChunkAcceptedIff: for amounts of at least 400 units, that is maximum supplies from 486,000,000 units on, as `RefusedForever` and `RoomMeansNoRefusal`; below that a chunk can also wait for units to split. Epochs are unbounded there.
- BankSpec.RunKeepsInv: epochs are unbounded here; the wrap-around of the epoch counter is in `Tokenomics` only.
- Solvency.BankStaysSolvent: assumes that other transfers and retirements from the bank's account stay within its surplus, that issues stay within 64 bits and that the bank is never the producer of a block, since its payout to itself would fail; payouts may be carried out arbitrarily late.
- Rewards.RewardCompletesIff: assumes that the accounts which the bank pays exist; a payout to a missing account would undo the chunk.
- Tokenomics.SplitGoesThroughIff: the ledger's part of a split only, as is `ChunkCompletesIff`; the bank's part is in `Rewards`.
- Multisig times: unbounded, where the contract compares seconds in 32 bits.
- Signed overflow is taken to wrap around in two's complement, as the compiled code does.
- Bank epochs: the epoch that `onepoch` finds is the table's own or the next one, since the inline action runs before the counters move again, and its failure undoes the block.
- Name auction: `exec` and `cleanup` are excluded. Payments are transfers of one asset, in `NameAuction` without and in `AuctionSolvency` with the ledger that carries them out, although `bidname` and `bidrefund` pass a bare asset where the token contract expects a list.
- AuctionSolvency.AuctionStaysSolvent: assumes that other transfers and retirements from the auction's account stay within its surplus and that accepted issues stay within 64 bits.
- Block table: rows are written in the contract's own scope and the batch lookup reads scope 0 (contracts/eosio.system/src/functions/functions.producers.cpp:191 and 218), so the lookup takes its table as a parameter and the two are not composed; `cleanblocks` is not modelled.
- `cfginit`, `cfgdestruct` and `init`: initial states only, because running them again resets supplies or counters under existing balances.
- Plain setters, drops (`claimdrops`, `rolldrops`, `execdrops`), contract metadata, whitelist, chain and wasm parameters, the boot and wrap contracts, the bank's `cleanup`: they hold no property beyond the value that they set.
