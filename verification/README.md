# ERC-721 enumerable registry with bundle swaps

A model of the ink! smart contract `Erc721` in `lib.rs`. The contract is an
ERC-721 style token registry with the enumerable extension (every account's
tokens listed by position, as in `tokenOfOwnerByIndex` of EIP-721). Around it
sit three further parts:

- an issuer registry, written only by the contract owner;
- NFT sets, created by issuers, into which set owners mint tokens;
- a swap-offer book in which a maker offers a bundle of its tokens (the
  bids) for a bundle of a recipient's tokens (the asks).

The contract keeps five hand-written copies of one enumeration structure:
owner → tokens, issuer → sets, set → tokens, account → ask offers and
account → bid offers. Each copy has a forward map `(key, position) → item`,
a reverse map `item → position` and a per-key count. Items are appended at
position `count` and removed by moving the last item into the hole.

Modules:

- `Common`: account and item identifiers, the contract's `Error` kinds, the
  call outcome `Status` and `Option`.
- `EnumIndex`: the enumeration structure, written once and generic in key
  and item. Operations:
  - `Place`: write the slot and the reverse entry;
  - `Bump`: `increase_counter_of`;
  - `Append`;
  - `Detach`: swap-remove without touching the count;
  - `Drop`: `decrease_counter_of`;
  - `Remove`.

  The module also defines `Valid`, under which positions `0 .. count-1` are
  exactly the defined ones, every listed item's reverse entry is its
  position, and no item is listed twice. `Valid` allows stale reverse
  entries for items that are no longer listed. `Items` reads a listing as a
  sequence. `Coupled` says an index lists exactly the items a
  `map<item, key>` assigns, each under its key, and that the reverse map has
  entries for exactly those items. Only together with `Coupled` is the
  reverse map the full inverse of the forward map.
- `Erc721`: the storage as one immutable `State` and the registry entry
  points as pure functions returning `(Status, State)`. It also holds the
  storage invariant `Inv`. Under `Inv`:
  - the owner listings are coupled with `token_owner`, and the null account
    owns nothing;
  - the issuer listings are coupled with the recorded set owners;
  - the set listings are valid;
  - the ask listings are coupled with the recipients of open offers, and the
    bid listings with their makers.
- `RegistryProofs`: the invariant and the promised effects of the token,
  issuer and set operations.
- `Swaps`: `is_owner_of_tokens`, `make_swap_proposal`, `reject_trade` and
  `accept_trade`, plus corrected versions of the last two (see Findings).
- `SwapProofs`: proofs about the swap book.
- `Queries`: what the read-only getters answer under the invariant.

Writes are applied in the order the contract performs them. A call that
returns an error part-way keeps the writes made before the error, and
callers that ignore a result carry on with the state it left.

The calling account is an explicit parameter. An offer is open exactly when
its id has an entry in the ask reverse map (`nft_ask_swap_index`).

## Model

| member | source | states |
|---|---|---|
| EnumIndex.IncreaseCounterOf | lib.rs:1085-1087 | an absent counter becomes 1, a present one grows by one; every other key's counter is unchanged |
| EnumIndex.DecreaseCounterOf | lib.rs:1073-1080 | `CannotFetchValue` exactly when the key has no counter and `Underflow` exactly when it is zero, both without a write; otherwise exactly one less, other keys untouched |
| EnumIndex.Place | lib.rs:754-766 | the item sits at position `count[key]` and its reverse entry is that old count; counts, every other slot and every other reverse entry are unchanged |
| EnumIndex.Bump | lib.rs:716-721 | the key's count grows by one, other counts and both maps are unchanged |
| EnumIndex.Append | lib.rs:726-743 | the item is written at the old count, its reverse entry is the old count, the key's count grows by exactly one, and no other key's count, slot or reverse entry changes |
| EnumIndex.Detach | lib.rs:851-892 | `Underflow` exactly when the count is 0, `CannotFetchValue` exactly when a relocation is needed and the last slot is empty; on success the count is unchanged, the item has no reverse entry and the last slot is gone |
| EnumIndex.Drop | lib.rs:1073-1080 | `CannotFetchValue` exactly when the key has no counter and `Underflow` exactly when it is zero, both without a write; on success the key's count is one less; other counts, slots and reverse entries are unchanged |
| EnumIndex.Remove | lib.rs:769-808 | an empty listing fails with `Underflow` and no write; on success the count is one less and the item has no reverse entry; other keys' counts are unchanged |
| EnumIndex.ItemAtDense | lib.rs:262-264 | on a valid index a position answers an item exactly when it is below the count, and that item is the listing's entry at the position |
| EnumIndex.SwapRemoveMultiset | lib.rs:786-800 | swap-with-last removal shortens a listing by one and leaves the old items minus the removed one, each as often as before |
| EnumIndex.EmptyValid | lib.rs:162-191 | the empty index is valid and lists nothing |
| EnumIndex.AppendValid | lib.rs:726-743 | appending an unlisted item keeps the index valid, extends the key's listing by exactly that item at the end and leaves every other listing as it was |
| EnumIndex.RemoveValid | lib.rs:769-808 | removing a listed item succeeds and keeps the index valid; the key's listing becomes the swap-with-last removal of the item's position (no relocation when it was last); other listings and other items' entries are kept |
| EnumIndex.RemoveListedOnly | lib.rs:769-849 | removing a listed item from its own key's listing succeeds and takes out that item alone: its reverse entry goes and no other, the key's items are the old ones less one copy of it, and every other listing is unchanged |
| EnumIndex.AppendThenRemove | lib.rs:726-808 | appending a fresh item and removing it again restores both maps and every count |
| EnumIndex.RemoveUnlistedEvictsFirst | lib.rs:781-805 | removing an item without a reverse entry from a non-empty listing succeeds, reads its position as 0 and evicts the first item listed, whose reverse entry survives |
| EnumIndex.RemoveElsewhereListsTwice | lib.rs:851-892 | removing a listed item under a key other than its own, from a non-empty listing, succeeds and leaves the item's own slot; appending it anywhere then lists it twice, so the index is invalid; the own key's count does not drop |
| EnumIndex.RemoveListedSucceeds | lib.rs:810-849 | removing a listed item from its own key's listing succeeds and drops its reverse entry |
| EnumIndex.RemoveElsewhereStrands | lib.rs:769-808 | removing a listed item under another, non-empty key succeeds and lowers that key's count, while the item's own slot still names it, so the index is invalid |
| EnumIndex.CoupledListing | lib.rs:196-198 | when an index is coupled with an item → key map, a key's listing holds exactly the items mapped to it, each once, so its count is their number |
| EnumIndex.CoupledItemAt | lib.rs:262-264 | in a coupled index a position answers exactly below the key's count, and the item it answers is mapped to that key |
| EnumIndex.CoupledHolds | lib.rs:268-270 | in a coupled index an item is listed under a key exactly when the map assigns it that key |
| EnumIndex.CoupledAppend | lib.rs:754-766 | appending a fresh item under `k` keeps the coupling with the map extended by `item → k` |
| EnumIndex.CoupledRemove | lib.rs:851-892 | swap-removing an item from its own key succeeds and keeps the coupling with the map that forgets the item |
| EnumIndex.CoupledMove | lib.rs:907-931 | removing an item from its key succeeds, and appending it under `to` afterwards keeps the coupling with the item re-mapped to `to` |
| EnumIndex.MoveCounts | lib.rs:907-931 | after a successful removal from `from` and an append under `to`, the item is last in `to`'s listing and exactly one unit of count has moved from `from` to `to` (none when they are equal) |
| Erc721.Init | lib.rs:162-191 | the deploying account owns the contract and every balance is 0 |
| Erc721.BalanceOf | lib.rs:196-198 | `balance_of` reads the owner count (0 when absent); `RegistryProofs.BalanceIsOwnedCount` proves it equals the number of tokens the account owns |
| Erc721.OwnerOf | lib.rs:268-270 | `owner_of` reads `token_owner`; `Queries.OwnerOfListed` proves it names an account exactly when the token is listed under it |
| Erc721.Exists | lib.rs:1066-1068 | `exists` tests `token_owner`; `Queries.OwnerOfListed` proves it holds exactly when `owner_of` answers |
| Erc721.TokenOfOwnerByIndex | lib.rs:262-264 | reads the owner listing by position; `Queries.TokenOfOwnerByIndexOwned` proves it answers exactly below the balance and only with tokens the account owns |
| Erc721.IssuerSetBalance | lib.rs:274-276 | reads the issuer's set count; `Queries.IssuerSetBalanceCounts` proves it is the number of recorded sets the issuer owns |
| Erc721.SetOfOwnerByIndex | lib.rs:281-283 | reads the issuer listing by position; `Queries.SetOfOwnerByIndexOwned` proves it answers exactly below the set count and only with sets the issuer owns |
| Erc721.NftSetBalance | lib.rs:287-289 | reads the set's token count; `Queries.NftBySetIndexMinted` proves the set lists exactly that many distinct tokens |
| Erc721.NftBySetIndex | lib.rs:293-295 | reads the set listing by position; `Queries.NftBySetIndexMinted` proves it answers exactly below the count and only with minted tokens |
| Erc721.BalanceOfBids | lib.rs:201-203 | reads the bid count; `Queries.BidBalanceCounts` proves it is the number of open offers the account made |
| Erc721.BidOfOwnerByIndex | lib.rs:206-208 | reads the bid listing by position; `Queries.BidOfOwnerByIndexOpen` proves it answers exactly below the count and only with open offers the account made |
| Erc721.BalanceOfAsks | lib.rs:211-213 | reads the ask count; `Queries.AskBalanceCounts` proves it is the number of open offers addressed to the account |
| Erc721.AskOfOwnerByIndex | lib.rs:216-218 | reads the ask listing by position; `Queries.AskOfOwnerByIndexOpen` proves it answers exactly below the count and only with open offers addressed to the account |
| Erc721.IsIssuer | lib.rs:310-312 | `is_issuer` reads the issuer's status; `Erc721.SetIssuer` proves it answers the status last registered, and `Erc721.CreateNftSet` gates on it being `Some(true)` |
| Erc721.ApprovedForAll | lib.rs:1045-1050 | true exactly when the operator table holds `true` for the pair; a missing entry reads as `false` |
| Erc721.ApprovedOrOwner | lib.rs:1054-1063 | true exactly when the caller is not the null account and is the token's owner, its approved spender or an operator of its owner |
| Erc721.ClearApproval | lib.rs:1029-1037 | the token has no approval afterwards; other approvals, owners and listings are unchanged |
| Erc721.AddTokenTo | lib.rs:955-972 | `TokenExists` exactly for an owned id and `NotAllowed` exactly for the null account, both before any write; otherwise the owner is recorded and only that account's count grows by one |
| Erc721.RemoveTokenFrom | lib.rs:934-951 | `TokenNotFound` exactly for an unowned id; then `CannotFetchValue` exactly when `from` has no counter and `Underflow` exactly when its counter is 0 (lib.rs:1077-1078); every failure writes nothing; the call succeeds exactly for an owned id and a positive balance of `from`, and then the owner entry is gone and only `from`'s count is one less |
| Erc721.AddTokenToOwnerEnumeration | lib.rs:754-766 | the token is written at position `balance(to)` with that reverse entry; no count and no listed position changes |
| Erc721.RemoveTokenFromOwnerEnumeration | lib.rs:851-892 | `Underflow` exactly when the balance is 0, and `CannotFetchValue` exactly when the token's recorded position (0 when absent) is not the last one and the last slot is empty (lib.rs:867-872); no other failure, and a failure writes nothing; on success the token loses its reverse entry and no count changes |
| Erc721.TransferTokenFrom | lib.rs:907-931 | `TokenNotFound` for an unowned id and `NotApproved` for a caller that may not move it, both before any write; on success the token belongs to `to` and has no approval |
| Erc721.Transfer | lib.rs:590-598 | an unowned id is refused unchanged; on success the destination owns the token |
| Erc721.TransferChecked | lib.rs:587-598 | the corrected `transfer`: `TokenNotFound` exactly for an unowned id, `NotOwner` exactly when the caller does not own it, `NotAllowed` for a null destination, all without a write; on success the destination owns the token |
| Erc721.ApproveFor | lib.rs:1005-1026 | an unowned token panics; `NotAllowed` exactly when the caller neither owns nor operates for the token, or the spender is null, with no write; otherwise the approval slot is overwritten, reporting `CannotInsert` exactly when it was already set |
| Erc721.SetIssuer | lib.rs:321-334 | succeeds exactly for the contract owner, as an upsert of the issuer entry; otherwise `NotContractOwner` and no write |
| Erc721.AddSetToEnumeration | lib.rs:726-743 | the set is listed at the issuer's old count, which grows by one; other issuers' counts are unchanged |
| Erc721.CreateNftSet | lib.rs:337-366 | succeeds exactly when the caller's issuer status is `Some(true)` and the id has no set whose status is true; otherwise `NotIssuer` and no write; on success the set is recorded with the caller as owner and listed last under the caller |
| Erc721.IncrementNftTokenSet | lib.rs:716-721 | the set's token count grows by one, other sets' counts are unchanged |
| Erc721.AddTokenToSetEnumeration | lib.rs:696-713 | the token is listed at the set's old count, which grows by one |
| Erc721.Mint | lib.rs:370-406 | `NotIssuer` with no write unless the caller is the set's recorded owner (its status is never read); then `TokenExists` exactly for an owned id and `NotAllowed` exactly for a null recipient; on success the recipient owns the token, listed last under the recipient and under the set, with its features recorded |
| RegistryProofs.InitInv | lib.rs:162-191 | the constructor's storage satisfies the invariant and nobody owns anything |
| RegistryProofs.BalanceIsOwnedCount | lib.rs:196-198 | when the owner listings are coupled with the owner map, an account's listing holds exactly the tokens it owns, each once, and its balance is their number |
| Queries.OwnerOfListed | lib.rs:268-270 | with owner listings coupled, `owner_of` names `a` exactly when the token is listed under `a`, and `exists` holds exactly when `owner_of` answers |
| Queries.TokenOfOwnerByIndexOwned | lib.rs:262-264 | with owner listings coupled, `token_of_owner_by_index` answers exactly below `balance_of`, and only with tokens the account owns |
| Queries.SetOfOwnerByIndexOwned | lib.rs:281-283 | with issuer listings coupled, `set_of_owner_by_index` answers exactly below `issuer_set_balance`, and only with sets recorded as the issuer's |
| Queries.IssuerSetBalanceCounts | lib.rs:274-276 | with issuer listings coupled, `issuer_set_balance` is the number of recorded sets the issuer owns |
| Queries.NftBySetIndexMinted | lib.rs:287-295 | under the invariant `nft_by_set_index` answers exactly below `nft_set_balance`, only with minted tokens, and the set lists that many tokens, none twice |
| Queries.AskOfOwnerByIndexOpen | lib.rs:216-218 | with the swap listings consistent, `ask_of_owner_by_index` answers exactly below `balance_of_asks`, and only with open offers addressed to the account |
| Queries.BidOfOwnerByIndexOpen | lib.rs:206-208 | with the swap listings consistent, `bid_of_owner_by_index` answers exactly below `balance_of_bids`, and only with open offers the account made |
| Queries.AskBalanceCounts | lib.rs:211-213 | with the ask listings coupled, `balance_of_asks` is the number of open offers addressed to the account |
| Queries.BidBalanceCounts | lib.rs:201-203 | with the bid listings coupled, `balance_of_bids` is the number of open offers the account made |
| RegistryProofs.TransferKeepsInv | lib.rs:907-931 | an authorised transfer of a token owned by `from` to a non-null account succeeds and keeps the invariant |
| RegistryProofs.TransferStepTokens | lib.rs:907-931 | a transfer call on a token owned by `from` to a non-null account, allowed or refused, keeps the owner listings coupled with the owner map |
| RegistryProofs.TransferSpec | lib.rs:907-931 | such a transfer succeeds, keeps the invariant, hands the token to `to`, clears its approval, moves one unit of balance from `from` to `to`, leaves the token last in `to`'s listing and writes nothing outside the token maps |
| RegistryProofs.TransferMessageSpec | lib.rs:590-598 | the `transfer` message of a token the caller owns to a non-null account succeeds, keeps the invariant and moves one unit of balance |
| RegistryProofs.TransferWrites | lib.rs:907-931 | an authorised transfer whose removal from `from`'s listing succeeds, whoever owns the token, succeeds; the owner listing becomes that removal followed by the append to `to`, and the token belongs to `to` |
| RegistryProofs.SpenderTransferCorruptsListing | lib.rs:590-598 | a `transfer` to a non-null account by an approved spender or operator that does not own the token succeeds exactly when the caller lists some token; then the destination owns the token, the owner's balance does not drop, the caller's balance drops by one when the caller is not the destination, and the owner listing is invalid |
| RegistryProofs.SpenderTransferWrites | lib.rs:590-598 | the successful case of that `transfer`, for a caller that lists some token: the same effects on the owner, the balances and the listing |
| RegistryProofs.TransferToNullDropsToken | lib.rs:907-931 | an authorised transfer to the null account fails with `NotAllowed` only after the token lost its owner and was written into the null account's slot 0, which leaves the owner listing invalid |
| RegistryProofs.TransferCheckedSpec | lib.rs:587-598 | the corrected `transfer` succeeds exactly for the owner and a non-null destination, then keeps the invariant, hands the token over and moves one unit of balance; otherwise it writes nothing |
| RegistryProofs.MintWrites | lib.rs:370-406 | a mint of a fresh id by the set owner to a non-null account succeeds, appends the token under the recipient and under the set, records the owner, and leaves set records, set listings and all swap data untouched |
| RegistryProofs.MintKeepsInv | lib.rs:370-406 | such a mint keeps the invariant |
| RegistryProofs.MintSpec | lib.rs:370-406 | a mint of a fresh id by the set owner to a non-null account succeeds, keeps the invariant and lists the token last under the recipient and under the set |
| RegistryProofs.MintExistingLeavesStraySlot | lib.rs:386-387 | minting an owned id fails with `TokenExists` only after writing a slot past the recipient's count, which leaves the owner listing invalid |
| RegistryProofs.MintToNullLeavesStraySlot | lib.rs:386-387 | minting a fresh id to the null account fails with `NotAllowed` (lib.rs:965-966) only after slot 0 of the null account and the id's reverse entry were written, so the id is listed without an owner and the owner listing is invalid |
| RegistryProofs.SetIssuerKeepsInv | lib.rs:321-334 | registering an issuer, successful or not, keeps the invariant |
| RegistryProofs.CreateNftSetSpec | lib.rs:337-366 | creating a set under a fresh id succeeds, keeps the invariant, records the caller as owner and lists the set last under the caller |
| RegistryProofs.CreateInactiveSetAgainRelists | lib.rs:346-362 | re-creating a recorded set whose status is false succeeds and lists its id a second time, which leaves the issuer listings invalid |
| Swaps.IsOwnerOfTokens | lib.rs:544-552 | true exactly when every listed token is owned by the account (so true for an empty list) |
| Swaps.ApproveEach | lib.rs:434-436 | only approvals change; tokens outside the list keep theirs; when the caller owns every listed token and the spender is not null, each listed token is approved for the spender |
| Swaps.MakeSwapProposal | lib.rs:419-477 | succeeds exactly when the caller owns every bid and the recipient every ask, otherwise `NotOwner` and no write; on success the offer is recorded, appended at the old count under the recipient's asks and the caller's bids, open, and each bid is approved for a non-null recipient; no owner changes |
| Swaps.RemoveSwapFromAskEnumeration | lib.rs:769-808 | an account with no asks fails with `Underflow` and no write; on success its ask count is one less and the offer is no longer open; only the ask listing changes |
| Swaps.RemoveSwapFromBidEnumeration | lib.rs:810-849 | an account with no bids fails with `Underflow` and no write; on success its bid count is one less and the offer has no bid entry; only the bid listing changes |
| Swaps.RejectTrade | lib.rs:480-500 | succeeds exactly when the caller is the recorded maker or recipient (null for a missing record), otherwise `NotOwner` and no write; only the two swap listings change |
| Swaps.TransferEach | lib.rs:517-523 | a loop of transfers whose results are ignored; no swap, set or operator data changes |
| Swaps.AcceptTrade | lib.rs:503-541 | succeeds exactly when the offer is open, the maker owns every bid and the caller every ask; otherwise `NotOwner` and no write; offer records and sets are never changed |
| Swaps.RejectTradeChecked | lib.rs:480-500 | the corrected rejection: succeeds exactly for an open offer rejected by its maker or recipient, otherwise `NotOwner` and no write |
| Swaps.AcceptTradeChecked | lib.rs:503-541 | the corrected accept: succeeds exactly when the offer is open, the caller is its recipient, both bundles are still owned, neither names a token twice and the caller may move every bid; otherwise no write |
| SwapProofs.OwnerNotNull | lib.rs:955-972 | under the invariant no token belongs to the null account |
| SwapProofs.OpenOfferListed | lib.rs:446-459 | under the invariant an open offer has a record, is listed under its recipient's asks and its non-null maker's bids |
| SwapProofs.SwapsConsistentOpen | lib.rs:446-459 | listing a fresh offer with a non-null maker under its recipient and maker keeps the swap part of the invariant |
| SwapProofs.SwapsConsistentClose | lib.rs:494-495 | removing an open offer from its recipient's asks and its maker's bids succeeds twice, closes it and keeps the swap part of the invariant |
| SwapProofs.ProposeSpec | lib.rs:419-477 | a proposal under an id that is not open, by a non-null owner of the bids to an owner of the asks, succeeds, keeps the invariant, changes no owner and appends the id to both listings |
| SwapProofs.CloseOffer | lib.rs:524-525 | the two removals that close an open offer both succeed, keep the invariant, close that offer and no other, and change only the swap listings: the recipient's ask count and the maker's bid count each drop by one and every other account's listings are unchanged |
| SwapProofs.CloseOfferOnly | lib.rs:524-525 | the two removals, on any state with the same offer records and swap listings, take out the offer's id and nothing else |
| SwapProofs.ClosesOnlyOf | lib.rs:769-849 | removing only the offer's id from its recipient's asks and its maker's bids closes that offer and no other |
| SwapProofs.RejectSpec | lib.rs:480-500 | rejecting an open offer as maker or recipient succeeds, keeps the invariant, closes that offer and no other (every other offer stays open or closed as it was, the recipient's ask count and the maker's bid count each drop by one, no other listing changes) and moves no token, approval or record |
| SwapProofs.RejectClosedEvictsOpen | lib.rs:480-500 | rejecting an already closed offer as its maker still succeeds and evicts another open offer from the recipient's asks, breaking the invariant |
| SwapProofs.RejectTradeCheckedSpec | lib.rs:480-500 | the corrected rejection, when it succeeds, keeps the invariant and closes that offer and no other, with only the recipient's ask count and the maker's bid count dropping, each by one; when it fails it writes nothing |
| SwapProofs.TransferStep | lib.rs:907-931 | one transfer of a listed token to a non-null account moves it to `to` exactly when the caller may move it and touches no other token's owner or approval |
| SwapProofs.TransferStepFacts | lib.rs:517-523 | one step of a transfer loop over distinct tokens of `from` to a non-null account keeps the listings coupled, re-assigns only the stepped token (to `to` exactly when the caller may move it), keeps every other approval, and leaves the rest of the loop owned by `from` and movable exactly as before |
| SwapProofs.TransferEachOthers | lib.rs:517-523 | whatever each step returns, a transfer loop changes neither the owner nor the approval of any token outside the loop |
| SwapProofs.TransferEachTokens | lib.rs:517-523 | a transfer loop over distinct tokens of `from` to a non-null account keeps the owner listings coupled with the owners |
| SwapProofs.TransferEachOwners | lib.rs:517-523 | after a transfer loop over distinct tokens of `from` to a non-null account, each token is `to`'s exactly when the caller could move it at the start and `from`'s otherwise |
| SwapProofs.TransferEachToSelf | lib.rs:517-523 | a loop that transfers a non-null account's distinct tokens to that same account leaves every owner as it was |
| SwapProofs.TransferEachToSelfOwners | lib.rs:515-523 | a loop that transfers a non-null account's distinct tokens to that same account leaves every account owning whatever bundle it owned before; this covers an offer whose maker is its own recipient |
| SwapProofs.LoopSparesOthers | lib.rs:517-523 | a bundle with no token in a transfer loop is still owned by its owner afterwards, and the caller may move each of its tokens exactly as before |
| SwapProofs.TransferEachInv | lib.rs:517-523 | a transfer loop over distinct tokens of `from` to a non-null account keeps the invariant |
| SwapProofs.AcceptLoopsInv | lib.rs:515-523 | for a non-null caller and maker and distinct bundles that the caller and the maker own, both loops of an accept keep the invariant and leave the swap data untouched |
| SwapProofs.AcceptCloses | lib.rs:503-541 | an accept by the non-null recipient of an open offer whose distinct bundles are still owned succeeds, keeps the invariant and closes that offer and no other, with only the recipient's ask count and the maker's bid count dropping, each by one |
| SwapProofs.AcceptMoves | lib.rs:515-523 | after such an accept every ask is the maker's and each bid is the caller's exactly when the caller could move it at the start |
| SwapProofs.AcceptSpec | lib.rs:503-541 | such an accept succeeds, keeps the invariant, gives every ask to the maker, gives each bid to the caller exactly when the caller could move it, and closes that offer and no other (every other offer stays as it was, the recipient's ask count and the maker's bid count each drop by one, no other listing changes), so a second accept fails with `NotOwner` |
| SwapProofs.AcceptLeavesUnapprovedBid | lib.rs:515-525 | when the caller may not move some bid, the accept still succeeds and closes the offer, the asks all go to the maker and that bid stays with the maker |
| SwapProofs.LaterProposalRevokesApproval | lib.rs:434-436 | a later proposal by the same maker naming a bid token approves the new recipient, so the earlier recipient may no longer move it |
| SwapProofs.RecipientTransfersBidEarly | lib.rs:434-436 | a proposal approves its recipient for every bid, so a recipient that lists some token can take a bid with `transfer` without accepting; the call succeeds and leaves the owner listing invalid |
| SwapProofs.StrangerAcceptLeavesOfferOpen | lib.rs:503-525 | an account other than the recipient, owning every ask and with no asks listed, can accept: the call succeeds, its ask removal underflows and the offer stays open; under the invariant the maker's bid entry for the offer is removed, so the invariant breaks |
| SwapProofs.StrangerAcceptKeepsAsks | lib.rs:503-524 | such an accept succeeds and leaves the ask listings untouched |
| SwapProofs.StrangerAcceptDropsBid | lib.rs:525 | under the invariant such an accept removes the offer's bid entry while its ask entry stays, so the two no longer pair up |
| SwapProofs.StrangerAcceptCorruptsAsks | lib.rs:503-525 | a non-recipient with asks of its own listed, owning every ask, can accept: the call succeeds and closes the offer, the caller's ask count drops by one, and the offer stays listed under its real recipient, so the ask listings are invalid and the invariant breaks |
| SwapProofs.AcceptCompletes | lib.rs:503-541 | an accept by the non-null recipient of an open offer whose distinct bundles are still owned, when the caller may move every bid, gives every ask to the maker and every bid to the caller |
| SwapProofs.AcceptTradeCheckedSpec | lib.rs:503-541 | the corrected accept by a non-null caller, when it succeeds, completes the exchange in both directions, keeps the invariant and closes that offer and no other, with only the recipient's ask count and the maker's bid count dropping, each by one; when it fails it writes nothing |

## Left out

- Events (`emit_event`) and the value transfer in `mint` are host side effects with no effect on storage, so they are not modelled.
- The caller comes from `env().caller()` in the contract and is an explicit parameter here.
- Whole-call rollback by the host is not modelled. Each call's writes happen in source order, and a call that returns an error keeps the writes made before it.
- The contract does `u32` arithmetic. The unguarded `count - 1` on an empty listing, and `decrease_counter_of` on a zero counter, are modelled as the model-only error `Underflow` with no write. A build that wraps would go on with position `u32::MAX` and fail with `CannotFetchValue` before writing, except that `decrease_counter_of` would store `u32::MAX`. That stored value is not modelled.
- The `owner.expect(...)` panic in `approve_for` on an unowned token is the model-only error `Panic` with no write.
- Strings are opaque. The getters `get_token`, `get_nft_set`, `get_swap` and `issuer_name` are not modelled.
- The index getters return `Option` where the contract answers `0` for a missing entry.
- `operator_approvals` is a read-only input, because its only writer (`approve_for_all`) is commented out. All commented-out code is left out, as is the test module.
- SCALE encoding and the storage layout are left out; plain maps stand in for `StorageHashMap`.
- RegistryProofs.TransferSpec: requires `from` to be the token's owner, because `transfer_token_from` never checks it and the invariant cannot survive otherwise. It also requires a non-null `to`; that case is covered by `TransferToNullDropsToken`.
- RegistryProofs.TransferKeepsInv: requires `from` to be the owner, for the same reason.
- RegistryProofs.TransferMessageSpec: requires the caller to own the token. `transfer_token_from` also lets an approved spender or an operator through (lib.rs:917), and `transfer` then removes the token from the caller's listing. That case breaks the invariant and is covered by `SpenderTransferCorruptsListing` (see Findings).
- SwapProofs.ProposeSpec: requires an id that is not open and a non-null caller. `make_swap_proposal` never checks either. The case of re-using an open id, which overwrites its record while its old listing slots remain, is not covered.
- RegistryProofs.CreateNftSetSpec: requires an id with no recorded set. The case of a recorded set with status false is covered by `CreateInactiveSetAgainRelists`.
- RegistryProofs.MintSpec: requires a fresh id and a non-null recipient. An owned id is covered by `MintExistingLeavesStraySlot`, and a null recipient by `MintToNullLeavesStraySlot`.
- SwapProofs.AcceptSpec: requires the caller to be the recipient and not the null account, and both bundles free of repeated tokens. Repeated tokens make later iterations of the contract's transfer loops act on a token that has already moved.
- SwapProofs.AcceptTradeCheckedSpec: requires a non-null caller. The null account cannot sign a call.

## Findings

| source | as written | input that shows it | evidently intended | confidence | as-written member | corrected member |
|---|---|---|---|---|---|---|
| lib.rs:480-500 | `reject_trade` never checks that the offer is still open, and the removal reads a missing ask position as 0 (lib.rs:783) | the maker rejects an offer that was already rejected or accepted while its recipient has another open offer listed first; the call returns `Ok` and drops that other offer from the recipient's asks although it stays open | refuse an offer that is not open with `NotOwner`, as `accept_trade` does | not executed | SwapProofs.RejectClosedEvictsOpen | Swaps.RejectTradeChecked |
| lib.rs:515-525 | `accept_trade` ignores the result of every `transfer_token_from` and reports `Ok` | maker M offers token t to B (t approved for B), then offers t again to C (t now approved for C); B accepts the first offer: B's asks go to M, moving t fails with `NotApproved`, the call returns `Ok` and the offer is closed | all-or-nothing: refuse before any write unless the caller is the recipient and may move every bid | not executed | SwapProofs.AcceptLeavesUnapprovedBid | Swaps.AcceptTradeChecked |
| lib.rs:590-598 | `transfer` passes the caller as `from`, while `transfer_token_from` also admits an approved spender or an operator (lib.rs:917) and never checks that `from` owns the token | M offers token t to B, which approves B for t (lib.rs:434-436); B, owning another token u, calls `transfer(B, t)`: it returns `Ok`, B owns t and u with balance 1, M keeps balance 1 and still lists t, and u is listed nowhere | move a token out of the caller's listing only when the caller owns it, refusing anyone else with `NotOwner` before any write | not executed | RegistryProofs.SpenderTransferCorruptsListing | Erc721.TransferChecked |
| lib.rs:907-931 | the null destination is refused only by `add_token_to` (lib.rs:965-966), after the token has left `from`'s listing, lost its owner and been written into the null account's slot 0 | the owner of t calls `transfer(0, t)`: the call returns `NotAllowed`, and t has no owner but is listed under the null account past its count of 0 | refuse a null destination with `NotAllowed` before any write | not executed | RegistryProofs.TransferToNullDropsToken | Erc721.TransferChecked |
| lib.rs:503-525 | `accept_trade` never checks that the caller is the offer's recipient, and removes the offer from the caller's asks | offers 1 (maker 1 to account 2) and 5 (maker 1 to account 3), both with empty bundles; account 3 accepts offer 1: the call returns `Ok`, offer 1 is closed, and the removal from 3's asks evicts its own open offer 5 while offer 1 stays listed under 2 | refuse, before any write, a caller that is not the recipient | not executed | SwapProofs.StrangerAcceptCorruptsAsks | Swaps.AcceptTradeChecked |
