/**
 Bundle-for-bundle exchanges between two accounts: an offer records the
 maker's tokens (`bids`) and the recipient's tokens (`asks`), approves the
 recipient for every bid, and is listed under the recipient's asks and the
 maker's bids. An offer is open while its id has an ask entry. Results of
 the inner calls that the contract discards are discarded here too.
 */
module Swaps {
  import opened Common
  import opened EnumIndex
  import opened Erc721

  /** The record an absent offer reads as: null accounts and no tokens. */
  const NoOffer: SwapOffer := SwapOffer(Zero, [], [], Zero)

  /** The recorded offer, or `NoOffer` when there is none. */
  function OfferOf(st: State, id: SwapId): (o: SwapOffer)
    ensures id in st.swaps ==> o == st.swaps[id]
    ensures id !in st.swaps ==> o.maker == Zero && o.recipient == Zero && o.bids == [] && o.asks == []
  {
    Lookup(st.swaps, id).GetOr(NoOffer)
  }

  /** `is_owner_of_tokens`: every listed token is owned by `owner`; true for an empty list. */
  function IsOwnerOfTokens(st: State, owner: AccountId, ts: seq<TokenId>): (b: bool)
    ensures b <==> forall i | 0 <= i < |ts| :: ts[i] in st.tokenOwner && st.tokenOwner[ts[i]] == owner
  {
    if |ts| == 0 then true
    else if OwnerOf(st, ts[0]) != Some(owner) then false
    else IsOwnerOfTokens(st, owner, ts[1..])
  }

  /**
   The approval loop of `make_swap_proposal`: `approve_for(to, t)` for each
   token in order, outcomes ignored. Only approvals change; when the caller
   owns every token and `to` is not null, each of them ends up approved for
   `to`.
   */
  function ApproveEach(st: State, caller: AccountId, to: AccountId, ts: seq<TokenId>): (r: State)
    ensures r == st.(tokenApprovals := r.tokenApprovals)
    ensures forall t | t !in ts :: Lookup(r.tokenApprovals, t) == Lookup(st.tokenApprovals, t)
    ensures IsOwnerOfTokens(st, caller, ts) && to != Zero ==>
              forall i | 0 <= i < |ts| :: Lookup(r.tokenApprovals, ts[i]) == Some(to)
    decreases |ts|
  {
    if |ts| == 0 then st
    else ApproveEach(ApproveFor(st, caller, to, ts[0]).1, caller, to, ts[1..])
  }

  /**
   `make_swap_proposal`: `NotOwner`, before any write, unless the caller
   owns every bid and `to` owns every ask. Otherwise approves `to` for the
   bids, records the offer under `id` (replacing any earlier record) and
   appends `id` to `to`'s asks and to the caller's bids.
   */
  function MakeSwapProposal(st: State, caller: AccountId, id: SwapId, bids: seq<TokenId>, asks: seq<TokenId>, to: AccountId): (r: (Status, State))
    ensures r.0 == Ok <==> IsOwnerOfTokens(st, caller, bids) && IsOwnerOfTokens(st, to, asks)
    ensures r.0 != Ok ==> r == (Err(NotOwner), st)
    ensures r.0 == Ok ==>
              && Lookup(r.1.swaps, id) == Some(SwapOffer(caller, bids, asks, to))
              && AskOfOwnerByIndex(r.1, to, BalanceOfAsks(st, to)) == Some(id)
              && BalanceOfAsks(r.1, to) == BalanceOfAsks(st, to) + 1
              && BidOfOwnerByIndex(r.1, caller, BalanceOfBids(st, caller)) == Some(id)
              && BalanceOfBids(r.1, caller) == BalanceOfBids(st, caller) + 1
              && IsOpen(r.1, id)
              && (to != Zero ==> forall i | 0 <= i < |bids| :: Lookup(r.1.tokenApprovals, bids[i]) == Some(to))
              && r.1.tokenOwner == st.tokenOwner && r.1.ownedTokens == st.ownedTokens
  {
    if IsOwnerOfTokens(st, caller, bids) && IsOwnerOfTokens(st, to, asks) then
      var st1 := ApproveEach(st, caller, to, bids);
      var st2 := st1.(swaps := st1.swaps[id := SwapOffer(caller, bids, asks, to)]);
      var st3 := st2.(askSwaps := Append(st2.askSwaps, to, id));
      (Ok, st3.(bidSwaps := Append(st3.bidSwaps, caller, id)))
    else (Err(NotOwner), st)
  }

  /** `remove_swap_from_ask_enumeration`: swap-remove `id` from `from`'s asks and lower the count. */
  function RemoveSwapFromAskEnumeration(st: State, from: AccountId, id: SwapId): (r: (Status, State))
    ensures BalanceOfAsks(st, from) == 0 ==> r == (Err(Underflow), st)
    ensures r.0 == Ok ==> BalanceOfAsks(r.1, from) + 1 == BalanceOfAsks(st, from) && !IsOpen(r.1, id)
    ensures r.1 == st.(askSwaps := r.1.askSwaps)
  {
    var (s, ix) := Remove(st.askSwaps, from, id);
    (s, st.(askSwaps := ix))
  }

  /** `remove_swap_from_bid_enumeration`: swap-remove `id` from `from`'s bids and lower the count. */
  function RemoveSwapFromBidEnumeration(st: State, from: AccountId, id: SwapId): (r: (Status, State))
    ensures BalanceOfBids(st, from) == 0 ==> r == (Err(Underflow), st)
    ensures r.0 == Ok ==> BalanceOfBids(r.1, from) + 1 == BalanceOfBids(st, from) && id !in r.1.bidSwaps.reverse
    ensures r.1 == st.(bidSwaps := r.1.bidSwaps)
  {
    var (s, ix) := Remove(st.bidSwaps, from, id);
    (s, st.(bidSwaps := ix))
  }

  /**
   `reject_trade`: the maker and recipient are read from the record, as the
   null account when there is none. `NotOwner` unless the caller is one of
   them; otherwise `id` is removed from the recipient's asks and the maker's
   bids, outcomes ignored, and the call succeeds. Whether the offer is still
   open is not checked, and the record stays.
   */
  function RejectTrade(st: State, caller: AccountId, id: SwapId): (r: (Status, State))
    ensures r.0 == Ok <==> caller == OfferOf(st, id).maker || caller == OfferOf(st, id).recipient
    ensures r.0 != Ok ==> r == (Err(NotOwner), st)
    ensures r.1 == st.(askSwaps := r.1.askSwaps, bidSwaps := r.1.bidSwaps)
  {
    var offer := OfferOf(st, id);
    if caller == offer.maker || caller == offer.recipient then
      var st1 := RemoveSwapFromAskEnumeration(st, offer.recipient, id).1;
      (Ok, RemoveSwapFromBidEnumeration(st1, offer.maker, id).1)
    else (Err(NotOwner), st)
  }

  /**
   A transfer loop of `accept_trade`: `transfer_token_from(from, to, t)` on
   behalf of `caller` for each token in order, outcomes ignored. Swap
   storage, set storage and the issuer registry are never touched.
   */
  function TransferEach(st: State, caller: AccountId, from: AccountId, to: AccountId, ts: seq<TokenId>): (r: State)
    ensures r.swaps == st.swaps && r.askSwaps == st.askSwaps && r.bidSwaps == st.bidSwaps
    ensures r.sets == st.sets && r.ownedSets == st.ownedSets && r.setTokens == st.setTokens
    ensures r.operatorApprovals == st.operatorApprovals
    decreases |ts|
  {
    if |ts| == 0 then st
    else TransferEach(TransferTokenFrom(st, caller, from, to, ts[0]).1, caller, from, to, ts[1..])
  }

  /**
   `accept_trade`: `NotOwner`, before any write, unless the offer is open,
   its maker owns every bid and the caller owns every ask. Otherwise the
   asks are transferred from the caller to the maker, then the bids from
   the maker to the caller, then `id` is removed from the caller's asks and
   the maker's bids, every outcome ignored, and the call succeeds. The
   caller is never compared with the recorded recipient.
   */
  function AcceptTrade(st: State, caller: AccountId, id: SwapId): (r: (Status, State))
    ensures r.0 == Ok <==> IsOpen(st, id) && IsOwnerOfTokens(st, OfferOf(st, id).maker, OfferOf(st, id).bids)
                                          && IsOwnerOfTokens(st, caller, OfferOf(st, id).asks)
    ensures r.0 != Ok ==> r == (Err(NotOwner), st)
    ensures r.0 == Ok ==> r.1.swaps == st.swaps && r.1.sets == st.sets
  {
    if !IsOpen(st, id) then (Err(NotOwner), st)
    else
      var offer := OfferOf(st, id);
      if IsOwnerOfTokens(st, offer.maker, offer.bids) && IsOwnerOfTokens(st, caller, offer.asks) then
        var st1 := TransferEach(st, caller, caller, offer.maker, offer.asks);
        var st2 := TransferEach(st1, caller, offer.maker, caller, offer.bids);
        var st3 := RemoveSwapFromAskEnumeration(st2, caller, id).1;
        (Ok, RemoveSwapFromBidEnumeration(st3, offer.maker, id).1)
      else (Err(NotOwner), st)
  }

  // ---------------------------------------------------------------------
  // Corrected entry points

  /** `reject_trade` refusing, before any write, an offer that is no longer open. */
  function RejectTradeChecked(st: State, caller: AccountId, id: SwapId): (r: (Status, State))
    ensures r.0 == Ok <==> IsOpen(st, id) && (caller == OfferOf(st, id).maker || caller == OfferOf(st, id).recipient)
    ensures r.0 != Ok ==> r == (Err(NotOwner), st)
  {
    if !IsOpen(st, id) then (Err(NotOwner), st)
    else RejectTrade(st, caller, id)
  }

  /** Every token may be moved by `caller`. */
  predicate AllApproved(st: State, caller: AccountId, ts: seq<TokenId>)
  {
    forall i | 0 <= i < |ts| :: ts[i] in st.tokenOwner && ApprovedOrOwner(st, caller, ts[i])
  }

  /**
   `accept_trade` as an all-or-nothing exchange: besides the original
   checks, the caller must be the recorded recipient (`NotOwner`), neither
   bundle may name a token twice (`NotAllowed`) and the caller must be
   allowed to move every bid (`NotApproved`), all before any write.
   */
  function AcceptTradeChecked(st: State, caller: AccountId, id: SwapId): (r: (Status, State))
    ensures r.0 == Ok <==>
              && IsOpen(st, id) && caller == OfferOf(st, id).recipient
              && IsOwnerOfTokens(st, OfferOf(st, id).maker, OfferOf(st, id).bids)
              && IsOwnerOfTokens(st, caller, OfferOf(st, id).asks)
              && Distinct(OfferOf(st, id).asks) && Distinct(OfferOf(st, id).bids)
              && AllApproved(st, caller, OfferOf(st, id).bids)
    ensures r.0 != Ok ==> r.1 == st
  {
    if !IsOpen(st, id) then (Err(NotOwner), st)
    else
      var offer := OfferOf(st, id);
      if caller != offer.recipient then (Err(NotOwner), st)
      else if !(IsOwnerOfTokens(st, offer.maker, offer.bids) && IsOwnerOfTokens(st, caller, offer.asks)) then (Err(NotOwner), st)
      else if !(Distinct(offer.asks) && Distinct(offer.bids)) then (Err(NotAllowed), st)
      else if !AllApproved(st, caller, offer.bids) then (Err(NotApproved), st)
      else AcceptTrade(st, caller, id)
  }
}
