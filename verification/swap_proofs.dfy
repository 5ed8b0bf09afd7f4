/**
 Properties of the exchange protocol: proposing, rejecting and accepting an
 open offer keep the storage invariant, and what each of them moves.
 */
module SwapProofs {
  import opened Common
  import opened EnumIndex
  import opened Erc721
  import opened Swaps
  import opened RegistryProofs

  // ---------------------------------------------------------------------
  // Facts the invariant provides

  /** Under the invariant no token is owned by the null account. */
  lemma OwnerNotNull(st: State, t: TokenId)
    requires Inv(st) && t in st.tokenOwner
    ensures st.tokenOwner[t] != Zero
  {
    assert Holds(st.ownedTokens, st.tokenOwner[t], t);
  }

  /**
   Under the invariant an open offer has a record, a bid entry, and is
   listed under its recipient's asks and its non-null maker's bids.
   */
  lemma OpenOfferListed(st: State, id: SwapId)
    ensures Inv(st) && IsOpen(st, id) ==>
              && id in st.swaps && id in st.bidSwaps.reverse
              && Holds(st.askSwaps, st.swaps[id].recipient, id)
              && Holds(st.bidSwaps, st.swaps[id].maker, id)
              && st.swaps[id].maker != Zero
  {
    if Inv(st) && IsOpen(st, id) {
      var open := st.askSwaps.reverse.Keys;
      assert Recipients(open, st.swaps)[id] == st.swaps[id].recipient;
      assert Makers(open, st.swaps)[id] == st.swaps[id].maker;
    }
  }

  // ---------------------------------------------------------------------
  // The swap part of the invariant under opening and closing an offer

  lemma RecipientsMakersAdd(open: set<SwapId>, swaps: map<SwapId, SwapOffer>, id: SwapId, o: SwapOffer)
    requires id !in open
    ensures Recipients(open + {id}, swaps[id := o]) == Recipients(open, swaps)[id := o.recipient]
    ensures Makers(open + {id}, swaps[id := o]) == Makers(open, swaps)[id := o.maker]
  {
  }

  lemma RecipientsMakersRemove(open: set<SwapId>, swaps: map<SwapId, SwapOffer>, id: SwapId)
    ensures Recipients(open - {id}, swaps) == Recipients(open, swaps) - {id}
    ensures Makers(open - {id}, swaps) == Makers(open, swaps) - {id}
  {
  }

  /** Listing a fresh offer under its recipient keeps the asks coupled with the recipients of open offers. */
  lemma AsksOpen(ask: Index<AccountId, SwapId>, swaps: map<SwapId, SwapOffer>, id: SwapId, o: SwapOffer)
    requires Coupled(ask, Recipients(ask.reverse.Keys, swaps)) && ask.reverse.Keys <= swaps.Keys && id !in ask.reverse
    ensures Append(ask, o.recipient, id).reverse.Keys == ask.reverse.Keys + {id}
    ensures Coupled(Append(ask, o.recipient, id), Recipients(ask.reverse.Keys + {id}, swaps[id := o]))
  {
    var open := ask.reverse.Keys;
    var keyA := Recipients(open, swaps);
    assert keyA.Keys == open;
    CoupledAppend(ask, keyA, o.recipient, id);
    RecipientsMakersAdd(open, swaps, id, o);
  }

  /** Listing a fresh offer under its maker keeps the bids coupled with the makers of open offers. */
  lemma BidsOpen(bid: Index<AccountId, SwapId>, open: set<SwapId>, swaps: map<SwapId, SwapOffer>, id: SwapId, o: SwapOffer)
    requires Coupled(bid, Makers(open, swaps)) && open <= swaps.Keys && bid.reverse.Keys == open && id !in open
    ensures Append(bid, o.maker, id).reverse.Keys == open + {id}
    ensures Coupled(Append(bid, o.maker, id), Makers(open + {id}, swaps[id := o]))
    ensures forall k | k != o.maker :: Count(Append(bid, o.maker, id), k) == Count(bid, k)
  {
    var keyB := Makers(open, swaps);
    assert keyB.Keys == open;
    CoupledAppend(bid, keyB, o.maker, id);
    RecipientsMakersAdd(open, swaps, id, o);
  }

  /**
   Listing a fresh offer under its recipient's asks and its non-null
   maker's bids, with its record stored, keeps the swap invariant.
   */
  lemma SwapsConsistentOpen(ask: Index<AccountId, SwapId>, bid: Index<AccountId, SwapId>, swaps: map<SwapId, SwapOffer>,
                            id: SwapId, o: SwapOffer)
    requires SwapsConsistent(ask, bid, swaps) && id !in ask.reverse && o.maker != Zero
    ensures SwapsConsistent(Append(ask, o.recipient, id), Append(bid, o.maker, id), swaps[id := o])
  {
    AsksOpen(ask, swaps, id, o);
    BidsOpen(bid, ask.reverse.Keys, swaps, id, o);
  }

  /**
   Removing an open offer from its recipient's asks and its maker's bids
   succeeds twice and keeps the swap invariant, with the offer closed.
   */
  lemma SwapsConsistentClose(ask: Index<AccountId, SwapId>, bid: Index<AccountId, SwapId>, swaps: map<SwapId, SwapOffer>, id: SwapId)
    requires SwapsConsistent(ask, bid, swaps) && id in ask.reverse
    ensures id in swaps
    ensures var o := swaps[id];
      var a := Remove(ask, o.recipient, id);
      var b := Remove(bid, o.maker, id);
      && a.0 == Ok && b.0 == Ok
      && SwapsConsistent(a.1, b.1, swaps)
      && id !in a.1.reverse && id !in b.1.reverse
      && Count(a.1, o.recipient) + 1 == Count(ask, o.recipient)
      && Count(b.1, o.maker) + 1 == Count(bid, o.maker)
  {
    var open := ask.reverse.Keys;
    var o := swaps[id];
    assert Recipients(open, swaps).Keys == open;
    assert Recipients(open, swaps)[id] == o.recipient;
    assert Makers(open, swaps)[id] == o.maker;
    CoupledRemove(ask, Recipients(open, swaps), id);
    CoupledRemove(bid, Makers(open, swaps), id);
    RecipientsMakersRemove(open, swaps, id);
    assert Holds(bid, o.maker, id);
    assert o.maker != Zero;
  }

  // ---------------------------------------------------------------------
  // Proposing

  /**
   A proposal under an id that is not open, by a non-null caller owning
   every bid to a recipient owning every ask, succeeds, keeps the invariant
   and appends the id to the recipient's asks and the caller's bids.
   */
  lemma ProposeSpec(st: State, caller: AccountId, id: SwapId, bids: seq<TokenId>, asks: seq<TokenId>, to: AccountId)
    requires Inv(st) && !IsOpen(st, id) && caller != Zero
    requires IsOwnerOfTokens(st, caller, bids) && IsOwnerOfTokens(st, to, asks)
    ensures var (s, r) := MakeSwapProposal(st, caller, id, bids, asks, to);
      && s == Ok
      && Inv(r)
      && r.tokenOwner == st.tokenOwner
      && Items(r.askSwaps, to) == Items(st.askSwaps, to) + [id]
      && Items(r.bidSwaps, caller) == Items(st.bidSwaps, caller) + [id]
  {
    var o := SwapOffer(caller, bids, asks, to);
    SwapsConsistentOpen(st.askSwaps, st.bidSwaps, st.swaps, id, o);
    AppendValid(st.askSwaps, to, id);
    AppendValid(st.bidSwaps, caller, id);
    var st1 := ApproveEach(st, caller, to, bids);
    var r := MakeSwapProposal(st, caller, id, bids, asks, to).1;
    assert r == st.(tokenApprovals := st1.tokenApprovals, swaps := st.swaps[id := o],
                    askSwaps := Append(st.askSwaps, to, id), bidSwaps := Append(st.bidSwaps, caller, id));
  }

  // ---------------------------------------------------------------------
  // Closing and rejecting

  /**
   `r` closes the offer `id` of `st` and no other: the recipient's asks and
   the maker's bids each lose `id` and nothing else, so both counts drop by
   one, every other offer is open exactly when it was, and every other
   account's ask and bid listings are as they were.
   */
  ghost predicate ClosesOnly(st: State, r: State, id: SwapId)
  {
    var o := OfferOf(st, id);
    && RemovedOnly(st.askSwaps, r.askSwaps, o.recipient, id)
    && RemovedOnly(st.bidSwaps, r.bidSwaps, o.maker, id)
    && !IsOpen(r, id)
    && (forall w | w != id :: IsOpen(r, w) <==> IsOpen(st, w))
    && BalanceOfAsks(r, o.recipient) + 1 == BalanceOfAsks(st, o.recipient)
    && BalanceOfBids(r, o.maker) + 1 == BalanceOfBids(st, o.maker)
  }

  /**
   Removing an open offer from its recipient's asks and its maker's bids
   succeeds twice, closes it, keeps the invariant and touches nothing but
   the two listings.
   */
  lemma CloseOffer(st: State, id: SwapId)
    requires Inv(st) && IsOpen(st, id)
    ensures id in st.swaps
    ensures var o := st.swaps[id];
      var (s1, st1) := RemoveSwapFromAskEnumeration(st, o.recipient, id);
      var (s2, st2) := RemoveSwapFromBidEnumeration(st1, o.maker, id);
      && s1 == Ok && s2 == Ok
      && Inv(st2)
      && !IsOpen(st2, id)
      && st2 == st.(askSwaps := st2.askSwaps, bidSwaps := st2.bidSwaps)
      && BalanceOfAsks(st2, o.recipient) + 1 == BalanceOfAsks(st, o.recipient)
      && BalanceOfBids(st2, o.maker) + 1 == BalanceOfBids(st, o.maker)
      && ClosesOnly(st, st2, id)
  {
    SwapsConsistentClose(st.askSwaps, st.bidSwaps, st.swaps, id);
    OpenOfferListed(st, id);
    CloseOfferOnly(st, st, id);
  }

  /**
   The two removals of `CloseOffer`, applied to any state `from` that has
   `st`'s offer records and swap listings, take out `id` and nothing else.
   */
  lemma CloseOfferOnly(st: State, from: State, id: SwapId)
    requires id in st.swaps && Valid(st.askSwaps) && Valid(st.bidSwaps)
    requires Holds(st.askSwaps, st.swaps[id].recipient, id) && Holds(st.bidSwaps, st.swaps[id].maker, id)
    requires from.swaps == st.swaps && from.askSwaps == st.askSwaps && from.bidSwaps == st.bidSwaps
    ensures var o := st.swaps[id];
      var st1 := RemoveSwapFromAskEnumeration(from, o.recipient, id).1;
      var st2 := RemoveSwapFromBidEnumeration(st1, o.maker, id).1;
      ClosesOnly(st, st2, id)
  {
    var o := st.swaps[id];
    RemoveListedOnly(st.askSwaps, o.recipient, id);
    RemoveListedOnly(st.bidSwaps, o.maker, id);
    var st1 := RemoveSwapFromAskEnumeration(from, o.recipient, id).1;
    var st2 := RemoveSwapFromBidEnumeration(st1, o.maker, id).1;
    assert st2.askSwaps == Remove(st.askSwaps, o.recipient, id).1;
    assert st2.bidSwaps == Remove(st.bidSwaps, o.maker, id).1;
    ClosesOnlyOf(st, st2, id);
  }

  /** Removing `id` alone from the recipient's asks and the maker's bids closes that offer and no other. */
  lemma ClosesOnlyOf(st: State, r: State, id: SwapId)
    requires id in st.swaps
    requires RemovedOnly(st.askSwaps, r.askSwaps, st.swaps[id].recipient, id)
    requires RemovedOnly(st.bidSwaps, r.bidSwaps, st.swaps[id].maker, id)
    ensures ClosesOnly(st, r, id)
  {
    var o := st.swaps[id];
    assert OfferOf(st, id) == o;
    assert r.askSwaps.reverse.Keys == st.askSwaps.reverse.Keys - {id};
    assert BalanceOfAsks(r, o.recipient) + 1 == BalanceOfAsks(st, o.recipient);
    assert BalanceOfBids(r, o.maker) + 1 == BalanceOfBids(st, o.maker);
  }

  /**
   Rejecting an open offer as its maker or recipient succeeds, closes it and
   keeps the invariant; no token, approval or offer record changes.
   */
  lemma RejectSpec(st: State, caller: AccountId, id: SwapId)
    requires Inv(st) && IsOpen(st, id)
    requires caller == OfferOf(st, id).maker || caller == OfferOf(st, id).recipient
    ensures var (s, r) := RejectTrade(st, caller, id);
      && s == Ok
      && Inv(r)
      && !IsOpen(r, id)
      && ClosesOnly(st, r, id)
      && r.tokenOwner == st.tokenOwner && r.tokenApprovals == st.tokenApprovals && r.swaps == st.swaps
  {
    CloseOffer(st, id);
  }

  /**
   Rejecting, as its maker, an offer that is already closed still succeeds:
   the id has no ask entry, so its position reads as 0, and the removal
   from the recipient's asks takes out whichever open offer is listed
   first. That offer stays open but is no longer listed, so the invariant
   is broken.
   */
  lemma RejectClosedEvictsOpen(st: State, caller: AccountId, id: SwapId)
    requires Inv(st)
    requires id in st.swaps && !IsOpen(st, id) && caller == st.swaps[id].maker
    requires BalanceOfAsks(st, st.swaps[id].recipient) > 0
    ensures var k := st.swaps[id].recipient;
      var w := Items(st.askSwaps, k)[0];
      var (s, r) := RejectTrade(st, caller, id);
      && s == Ok
      && w != id && IsOpen(st, w) && IsOpen(r, w)
      && OfferOf(r, w).recipient == k
      && !Holds(r.askSwaps, k, w)
      && !Inv(r)
  {
    var k := st.swaps[id].recipient;
    var ask := st.askSwaps;
    var w := Items(ask, k)[0];
    RemoveUnlistedEvictsFirst(ask, k, id);
    var ask' := Remove(ask, k, id).1;
    HoldsIffListed(ask', k, w);
    assert Slot(k, 0) in ask.forward && ask.forward[Slot(k, 0)] == w;
    assert Holds(ask, k, w);
    OpenOfferListed(st, w);
    HoldsUnique(ask, k, st.swaps[w].recipient, w);
    var r := RejectTrade(st, caller, id).1;
    assert r.askSwaps == ask';
    OpenOfferListed(r, w);
  }

  /** The corrected rejection refuses closed offers and otherwise keeps the invariant. */
  lemma RejectTradeCheckedSpec(st: State, caller: AccountId, id: SwapId)
    requires Inv(st)
    ensures var (s, r) := RejectTradeChecked(st, caller, id);
      && (s == Ok ==> Inv(r) && !IsOpen(r, id) && ClosesOnly(st, r, id) && r.tokenOwner == st.tokenOwner && r.swaps == st.swaps)
      && (s != Ok ==> r == st)
  {
    if IsOpen(st, id) && (caller == OfferOf(st, id).maker || caller == OfferOf(st, id).recipient) {
      RejectSpec(st, caller, id);
    }
  }

  // ---------------------------------------------------------------------
  // Accepting

  /**
   One step of a transfer loop: a token of `from` goes to `to` exactly when
   the caller may move it, and no other token's owner or approval changes.
   */
  lemma TransferStep(st: State, caller: AccountId, from: AccountId, to: AccountId, t: TokenId)
    requires Valid(st.ownedTokens) && Holds(st.ownedTokens, from, t) && to != Zero
    requires t in st.tokenOwner && st.tokenOwner[t] == from
    ensures var r := TransferTokenFrom(st, caller, from, to, t).1;
      && r.tokenOwner == st.tokenOwner[t := if ApprovedOrOwner(st, caller, t) then to else from]
      && (forall u | u != t :: Lookup(r.tokenApprovals, u) == Lookup(st.tokenApprovals, u))
      && r.operatorApprovals == st.operatorApprovals
  {
    if ApprovedOrOwner(st, caller, t) {
      TransferSteps(st, caller, from, to, t);
    } else {
      assert st.tokenOwner[t := from] == st.tokenOwner;
    }
  }

  /**
   What one step of a transfer loop guarantees for the rest of the loop:
   the listings stay coupled, only `t` may change owner or lose its
   approval, and the remaining tokens are still `from`'s and movable by the
   caller exactly as before.
   */
  lemma TransferStepFacts(st: State, caller: AccountId, from: AccountId, to: AccountId, t: TokenId, rest: seq<TokenId>)
    requires TokensConsistent(st.ownedTokens, st.tokenOwner) && to != Zero
    requires t in st.tokenOwner && st.tokenOwner[t] == from
    requires t !in rest && IsOwnerOfTokens(st, from, rest)
    ensures var st1 := TransferTokenFrom(st, caller, from, to, t).1;
      && TokensConsistent(st1.ownedTokens, st1.tokenOwner)
      && st1.tokenOwner == st.tokenOwner[t := if ApprovedOrOwner(st, caller, t) then to else from]
      && (forall u | u != t :: Lookup(st1.tokenApprovals, u) == Lookup(st.tokenApprovals, u))
      && IsOwnerOfTokens(st1, from, rest)
      && (forall i | 0 <= i < |rest| :: ApprovedOrOwner(st1, caller, rest[i]) == ApprovedOrOwner(st, caller, rest[i]))
  {
    TransferStepTokens(st, caller, from, to, t);
    assert Holds(st.ownedTokens, from, t);
    TransferStep(st, caller, from, to, t);
    var st1 := TransferTokenFrom(st, caller, from, to, t).1;
    RestUnaffected(st, st1, caller, from, t, if ApprovedOrOwner(st, caller, t) then to else from, rest);
  }

  /** A transfer loop over distinct tokens of `from` keeps the owner listings coupled with `token_owner`. */
  lemma {:induction false} TransferEachTokens(st: State, caller: AccountId, from: AccountId, to: AccountId, ts: seq<TokenId>)
    requires TokensConsistent(st.ownedTokens, st.tokenOwner) && to != Zero
    requires Distinct(ts) && IsOwnerOfTokens(st, from, ts)
    ensures var r := TransferEach(st, caller, from, to, ts);
      TokensConsistent(r.ownedTokens, r.tokenOwner)
    decreases |ts|
  {
    if |ts| > 0 {
      var t, rest := ts[0], ts[1..];
      assert Distinct(rest) && t !in rest;
      TransferStepFacts(st, caller, from, to, t, rest);
      var st1 := TransferTokenFrom(st, caller, from, to, t).1;
      TransferEachTokens(st1, caller, from, to, rest);
    }
  }

  /**
   A transfer loop, whatever the outcome of its steps, changes neither the
   owner nor the approval of any token outside the loop.
   */
  lemma {:induction false} TransferEachOthers(st: State, caller: AccountId, from: AccountId, to: AccountId, ts: seq<TokenId>)
    ensures var r := TransferEach(st, caller, from, to, ts);
      && (forall t | t in st.tokenOwner && t !in ts :: t in r.tokenOwner && r.tokenOwner[t] == st.tokenOwner[t])
      && (forall t | t !in ts :: Lookup(r.tokenApprovals, t) == Lookup(st.tokenApprovals, t))
    decreases |ts|
  {
    if |ts| > 0 {
      TransferEachOthers(TransferTokenFrom(st, caller, from, to, ts[0]).1, caller, from, to, ts[1..]);
    }
  }

  /**
   Transferring distinct tokens of `from` one by one: each ends up with
   `to` when the caller could move it at the start and stays with `from`
   otherwise (`TransferEachOthers` covers every other token).
   */
  lemma {:induction false} TransferEachOwners(st: State, caller: AccountId, from: AccountId, to: AccountId, ts: seq<TokenId>)
    requires TokensConsistent(st.ownedTokens, st.tokenOwner) && to != Zero
    requires Distinct(ts) && IsOwnerOfTokens(st, from, ts)
    ensures var r := TransferEach(st, caller, from, to, ts);
      forall i | 0 <= i < |ts| :: ts[i] in r.tokenOwner && r.tokenOwner[ts[i]] == (if ApprovedOrOwner(st, caller, ts[i]) then to else from)
    decreases |ts|
  {
    if |ts| > 0 {
      var t, rest := ts[0], ts[1..];
      assert Distinct(rest) && t !in rest;
      TransferStepFacts(st, caller, from, to, t, rest);
      var st1 := TransferTokenFrom(st, caller, from, to, t).1;
      TransferEachOwners(st1, caller, from, to, rest);
      TransferEachOthers(st1, caller, from, to, rest);
      var r := TransferEach(st1, caller, from, to, rest);
      assert r == TransferEach(st, caller, from, to, ts);
      forall i | 0 <= i < |ts|
        ensures ts[i] in r.tokenOwner && r.tokenOwner[ts[i]] == (if ApprovedOrOwner(st, caller, ts[i]) then to else from)
      {
        if i > 0 {
          assert ts[i] == rest[i - 1];
        }
      }
    }
  }

  /** Whether `caller` may move `t` depends only on `t`'s owner, `t`'s approval and the operator table. */
  lemma SameAuthority(st: State, st1: State, caller: AccountId, t: TokenId)
    requires t in st.tokenOwner && t in st1.tokenOwner && st1.tokenOwner[t] == st.tokenOwner[t]
    requires Lookup(st1.tokenApprovals, t) == Lookup(st.tokenApprovals, t)
    requires st1.operatorApprovals == st.operatorApprovals
    ensures ApprovedOrOwner(st1, caller, t) == ApprovedOrOwner(st, caller, t)
  {
  }

  /**
   After a step that only re-assigns `t` and drops at most `t`'s approval,
   the other tokens keep their owner and whether the caller may move them.
   */
  lemma RestUnaffected(st: State, st1: State, caller: AccountId, from: AccountId, t: TokenId, x: AccountId, rest: seq<TokenId>)
    requires st1.tokenOwner == st.tokenOwner[t := x]
    requires forall u | u != t :: Lookup(st1.tokenApprovals, u) == Lookup(st.tokenApprovals, u)
    requires st1.operatorApprovals == st.operatorApprovals
    requires t !in rest && IsOwnerOfTokens(st, from, rest)
    ensures IsOwnerOfTokens(st1, from, rest)
    ensures forall i | 0 <= i < |rest| :: ApprovedOrOwner(st1, caller, rest[i]) == ApprovedOrOwner(st, caller, rest[i])
  {
    forall i | 0 <= i < |rest|
      ensures ApprovedOrOwner(st1, caller, rest[i]) == ApprovedOrOwner(st, caller, rest[i])
    {
      SameAuthority(st, st1, caller, rest[i]);
    }
  }

  /** A transfer loop from an account to itself leaves every owner as it was. */
  lemma TransferEachToSelf(st: State, caller: AccountId, a: AccountId, ts: seq<TokenId>)
    requires TokensConsistent(st.ownedTokens, st.tokenOwner) && a != Zero
    requires Distinct(ts) && IsOwnerOfTokens(st, a, ts)
    ensures var r := TransferEach(st, caller, a, a, ts);
      forall t | t in st.tokenOwner :: t in r.tokenOwner && r.tokenOwner[t] == st.tokenOwner[t]
  {
    TransferEachOwners(st, caller, a, a, ts);
    TransferEachOthers(st, caller, a, a, ts);
    var r := TransferEach(st, caller, a, a, ts);
    forall t | t in st.tokenOwner
      ensures t in r.tokenOwner && r.tokenOwner[t] == st.tokenOwner[t]
    {
      if t in ts {
        var j :| 0 <= j < |ts| && ts[j] == t;
      }
    }
  }

  /** Bundles owned before a self-transfer loop are still owned after it. */
  lemma TransferEachToSelfOwners(st: State, caller: AccountId, a: AccountId, ts: seq<TokenId>, owner: AccountId, us: seq<TokenId>)
    requires TokensConsistent(st.ownedTokens, st.tokenOwner) && a != Zero
    requires Distinct(ts) && IsOwnerOfTokens(st, a, ts) && IsOwnerOfTokens(st, owner, us)
    ensures IsOwnerOfTokens(TransferEach(st, caller, a, a, ts), owner, us)
  {
    TransferEachToSelf(st, caller, a, ts);
  }

  /** A transfer loop over distinct tokens of `from` keeps the invariant. */
  lemma TransferEachInv(st: State, caller: AccountId, from: AccountId, to: AccountId, ts: seq<TokenId>)
    requires Inv(st) && to != Zero
    requires Distinct(ts) && IsOwnerOfTokens(st, from, ts)
    ensures Inv(TransferEach(st, caller, from, to, ts))
  {
    TransferEachTokens(st, caller, from, to, ts);
    TransferEachOwners(st, caller, from, to, ts);
    TransferEachOthers(st, caller, from, to, ts);
  }

  /** Bundles owned by two different accounts share no token. */
  lemma OwnedApart(st: State, a: AccountId, xs: seq<TokenId>, b: AccountId, ys: seq<TokenId>)
    requires IsOwnerOfTokens(st, a, xs) && IsOwnerOfTokens(st, b, ys) && a != b
    ensures forall i | 0 <= i < |ys| :: ys[i] !in xs
  {
  }

  /** The caller's own tokens all reach `to` in a transfer loop. */
  lemma AsksReachMaker(st: State, caller: AccountId, to: AccountId, ts: seq<TokenId>)
    requires TokensConsistent(st.ownedTokens, st.tokenOwner) && caller != Zero && to != Zero
    requires Distinct(ts) && IsOwnerOfTokens(st, caller, ts)
    ensures IsOwnerOfTokens(TransferEach(st, caller, caller, to, ts), to, ts)
  {
    TransferEachOwners(st, caller, caller, to, ts);
  }

  /**
   Tokens outside a transfer loop keep their owner and whether the caller
   may move them.
   */
  lemma LoopSparesOthers(st: State, caller: AccountId, from: AccountId, to: AccountId, ts: seq<TokenId>,
                         owner: AccountId, us: seq<TokenId>)
    requires IsOwnerOfTokens(st, owner, us)
    requires forall i | 0 <= i < |us| :: us[i] !in ts
    ensures var r := TransferEach(st, caller, from, to, ts);
      && IsOwnerOfTokens(r, owner, us)
      && (forall i | 0 <= i < |us| :: ApprovedOrOwner(r, caller, us[i]) == ApprovedOrOwner(st, caller, us[i]))
  {
    TransferEachOthers(st, caller, from, to, ts);
    var r := TransferEach(st, caller, from, to, ts);
    forall i | 0 <= i < |us|
      ensures us[i] in r.tokenOwner && r.tokenOwner[us[i]] == owner
      ensures ApprovedOrOwner(r, caller, us[i]) == ApprovedOrOwner(st, caller, us[i])
    {
      SameAuthority(st, r, caller, us[i]);
    }
  }

  /** The first loop of an accept of one's own offer changes no owner. */
  lemma AcceptAsksStepSelf(st: State, caller: AccountId, asks: seq<TokenId>, bids: seq<TokenId>)
    requires TokensConsistent(st.ownedTokens, st.tokenOwner) && caller != Zero
    requires Distinct(asks) && IsOwnerOfTokens(st, caller, asks) && IsOwnerOfTokens(st, caller, bids)
    ensures var st1 := TransferEach(st, caller, caller, caller, asks);
      && IsOwnerOfTokens(st1, caller, asks)
      && IsOwnerOfTokens(st1, caller, bids)
      && (forall i | 0 <= i < |bids| :: ApprovedOrOwner(st1, caller, bids[i]) && ApprovedOrOwner(st, caller, bids[i]))
  {
    TransferEachToSelfOwners(st, caller, caller, asks, caller, asks);
    TransferEachToSelfOwners(st, caller, caller, asks, caller, bids);
  }

  /**
   The first loop of an accept: the caller's tokens all go to the maker,
   while the maker's tokens keep their owner and whether the caller may
   move them.
   */
  lemma AcceptAsksStep(st: State, caller: AccountId, maker: AccountId, asks: seq<TokenId>, bids: seq<TokenId>)
    requires TokensConsistent(st.ownedTokens, st.tokenOwner) && caller != Zero && maker != Zero
    requires Distinct(asks) && IsOwnerOfTokens(st, caller, asks) && IsOwnerOfTokens(st, maker, bids)
    ensures var st1 := TransferEach(st, caller, caller, maker, asks);
      && IsOwnerOfTokens(st1, maker, asks)
      && IsOwnerOfTokens(st1, maker, bids)
      && (forall i | 0 <= i < |bids| :: ApprovedOrOwner(st1, caller, bids[i]) == ApprovedOrOwner(st, caller, bids[i]))
  {
    if caller == maker {
      AcceptAsksStepSelf(st, caller, asks, bids);
    } else {
      AsksReachMaker(st, caller, maker, asks);
      OwnedApart(st, caller, asks, maker, bids);
      LoopSparesOthers(st, caller, caller, maker, asks, maker, bids);
    }
  }


  /** Both loops of an accept of one's own offer change no owner. */
  lemma AcceptLoopsSelf(st: State, caller: AccountId, asks: seq<TokenId>, bids: seq<TokenId>)
    requires TokensConsistent(st.ownedTokens, st.tokenOwner) && caller != Zero
    requires Distinct(asks) && Distinct(bids)
    requires IsOwnerOfTokens(st, caller, asks) && IsOwnerOfTokens(st, caller, bids)
    ensures var st2 := TransferEach(TransferEach(st, caller, caller, caller, asks), caller, caller, caller, bids);
      && IsOwnerOfTokens(st2, caller, asks)
      && IsOwnerOfTokens(st2, caller, bids)
  {
    AcceptAsksStepSelf(st, caller, asks, bids);
    TransferEachTokens(st, caller, caller, caller, asks);
    var st1 := TransferEach(st, caller, caller, caller, asks);
    TransferEachToSelfOwners(st1, caller, caller, bids, caller, asks);
    TransferEachToSelfOwners(st1, caller, caller, bids, caller, bids);
  }

  /** `AcceptLoopsAsks` for an offer between two different accounts. */
  lemma AcceptLoopsAsksApart(st: State, caller: AccountId, maker: AccountId, asks: seq<TokenId>, bids: seq<TokenId>)
    requires TokensConsistent(st.ownedTokens, st.tokenOwner) && caller != Zero && maker != Zero && caller != maker
    requires Distinct(asks) && Distinct(bids)
    requires IsOwnerOfTokens(st, caller, asks) && IsOwnerOfTokens(st, maker, bids)
    ensures IsOwnerOfTokens(TransferEach(TransferEach(st, caller, caller, maker, asks), caller, maker, caller, bids), maker, asks)
  {
    AcceptAsksStep(st, caller, maker, asks, bids);
    TransferEachTokens(st, caller, caller, maker, asks);
    var st1 := TransferEach(st, caller, caller, maker, asks);
    OwnedApart(st, maker, bids, caller, asks);
    LoopSparesOthers(st1, caller, maker, caller, bids, maker, asks);
  }


  /** After both loops of an accept every ask is owned by the maker. */
  lemma AcceptLoopsAsks(st: State, caller: AccountId, maker: AccountId, asks: seq<TokenId>, bids: seq<TokenId>)
    requires TokensConsistent(st.ownedTokens, st.tokenOwner) && caller != Zero && maker != Zero
    requires Distinct(asks) && Distinct(bids)
    requires IsOwnerOfTokens(st, caller, asks) && IsOwnerOfTokens(st, maker, bids)
    ensures IsOwnerOfTokens(TransferEach(TransferEach(st, caller, caller, maker, asks), caller, maker, caller, bids), maker, asks)
  {
    if caller == maker {
      AcceptLoopsSelf(st, caller, asks, bids);
    } else {
      AcceptLoopsAsksApart(st, caller, maker, asks, bids);
    }
  }

  /**
   After both loops of an accept each bid is owned by the caller when the
   caller could move it at the start, and by the maker otherwise.
   */
  lemma AcceptLoopsBids(st: State, caller: AccountId, maker: AccountId, asks: seq<TokenId>, bids: seq<TokenId>)
    requires TokensConsistent(st.ownedTokens, st.tokenOwner) && caller != Zero && maker != Zero
    requires Distinct(asks) && Distinct(bids)
    requires IsOwnerOfTokens(st, caller, asks) && IsOwnerOfTokens(st, maker, bids)
    ensures var st2 := TransferEach(TransferEach(st, caller, caller, maker, asks), caller, maker, caller, bids);
      forall i | 0 <= i < |bids| ::
        bids[i] in st2.tokenOwner && st2.tokenOwner[bids[i]] == (if ApprovedOrOwner(st, caller, bids[i]) then caller else maker)
  {
    if caller == maker {
      AcceptLoopsSelf(st, caller, asks, bids);
      AcceptAsksStepSelf(st, caller, asks, bids);
      return;
    }
    AcceptAsksStep(st, caller, maker, asks, bids);
    TransferEachTokens(st, caller, caller, maker, asks);
    var st1 := TransferEach(st, caller, caller, maker, asks);
    TransferEachOwners(st1, caller, maker, caller, bids);
  }

  /** Both loops of an accept keep the invariant and the offer open. */
  lemma AcceptLoopsInv(st: State, caller: AccountId, maker: AccountId, asks: seq<TokenId>, bids: seq<TokenId>)
    requires Inv(st) && caller != Zero && maker != Zero
    requires Distinct(asks) && Distinct(bids)
    requires IsOwnerOfTokens(st, caller, asks) && IsOwnerOfTokens(st, maker, bids)
    ensures var st2 := TransferEach(TransferEach(st, caller, caller, maker, asks), caller, maker, caller, bids);
      && Inv(st2)
      && st2.swaps == st.swaps && st2.askSwaps == st.askSwaps && st2.bidSwaps == st.bidSwaps
  {
    AcceptAsksStep(st, caller, maker, asks, bids);
    TransferEachInv(st, caller, caller, maker, asks);
    var st1 := TransferEach(st, caller, caller, maker, asks);
    TransferEachInv(st1, caller, maker, caller, bids);
  }

  /** The state an accept leaves behind after its two transfer loops. */
  ghost function AfterLoops(st: State, caller: AccountId, id: SwapId): State
  {
    var o := OfferOf(st, id);
    TransferEach(TransferEach(st, caller, caller, o.maker, o.asks), caller, o.maker, caller, o.bids)
  }

  /**
   A successful accept closes the offer on the state its loops leave: the
   recipient's ask listing and the maker's bid listing lose the id, nothing
   else changes, and the invariant is kept.
   */
  lemma AcceptCloses(st: State, caller: AccountId, id: SwapId)
    requires Inv(st) && IsOpen(st, id) && caller != Zero
    requires caller == OfferOf(st, id).recipient
    requires Distinct(OfferOf(st, id).asks) && Distinct(OfferOf(st, id).bids)
    requires IsOwnerOfTokens(st, OfferOf(st, id).maker, OfferOf(st, id).bids)
    requires IsOwnerOfTokens(st, caller, OfferOf(st, id).asks)
    ensures var (s, r) := AcceptTrade(st, caller, id);
      && s == Ok
      && Inv(r)
      && !IsOpen(r, id)
      && ClosesOnly(st, r, id)
      && r.tokenOwner == AfterLoops(st, caller, id).tokenOwner
  {
    var o := OfferOf(st, id);
    OpenOfferListed(st, id);
    AcceptLoopsInv(st, caller, o.maker, o.asks, o.bids);
    var st2 := AfterLoops(st, caller, id);
    assert st2.swaps == st.swaps && st2.askSwaps == st.askSwaps;
    CloseOffer(st2, id);
    CloseOfferOnly(st, st2, id);
  }

  /** A successful accept moves tokens only in its two loops. */
  lemma AcceptOwners(st: State, caller: AccountId, id: SwapId)
    requires IsOpen(st, id)
    requires IsOwnerOfTokens(st, OfferOf(st, id).maker, OfferOf(st, id).bids)
    requires IsOwnerOfTokens(st, caller, OfferOf(st, id).asks)
    ensures AcceptTrade(st, caller, id).1.tokenOwner == AfterLoops(st, caller, id).tokenOwner
  {
  }

  /** Whether an account owns a bundle depends on the owner map alone. */
  lemma OwnerOfTokensByOwners(a: State, b: State, owner: AccountId, ts: seq<TokenId>)
    requires a.tokenOwner == b.tokenOwner
    ensures IsOwnerOfTokens(a, owner, ts) == IsOwnerOfTokens(b, owner, ts)
  {
  }

  /**
   After a successful accept every ask is the maker's and each bid is the
   caller's exactly when the caller could move it at the start.
   */
  lemma AcceptMoves(st: State, caller: AccountId, id: SwapId)
    requires Inv(st) && IsOpen(st, id) && caller != Zero
    requires caller == OfferOf(st, id).recipient
    requires Distinct(OfferOf(st, id).asks) && Distinct(OfferOf(st, id).bids)
    requires IsOwnerOfTokens(st, OfferOf(st, id).maker, OfferOf(st, id).bids)
    requires IsOwnerOfTokens(st, caller, OfferOf(st, id).asks)
    ensures var o := OfferOf(st, id);
      var r := AcceptTrade(st, caller, id).1;
      && IsOwnerOfTokens(r, o.maker, o.asks)
      && (forall i | 0 <= i < |o.bids| ::
            o.bids[i] in r.tokenOwner && r.tokenOwner[o.bids[i]] == (if ApprovedOrOwner(st, caller, o.bids[i]) then caller else o.maker))
  {
    var o := OfferOf(st, id);
    var r := AcceptTrade(st, caller, id).1;
    var st2 := AfterLoops(st, caller, id);
    OpenOfferListed(st, id);
    AcceptOwners(st, caller, id);
    AcceptLoopsAsks(st, caller, o.maker, o.asks, o.bids);
    AcceptLoopsBids(st, caller, o.maker, o.asks, o.bids);
    OwnerOfTokensByOwners(r, st2, o.maker, o.asks);
  }

  /**
   Accepting an open offer as its non-null recipient, with both bundles
   free of repeats and still owned as recorded:
   the call succeeds, every ask goes to the maker, each bid goes to the
   caller only if the caller could move it, the offer is closed so a second
   accept fails, and the invariant is kept.
   */
  lemma AcceptSpec(st: State, caller: AccountId, id: SwapId)
    requires Inv(st) && IsOpen(st, id) && caller != Zero
    requires caller == OfferOf(st, id).recipient
    requires Distinct(OfferOf(st, id).asks) && Distinct(OfferOf(st, id).bids)
    requires IsOwnerOfTokens(st, OfferOf(st, id).maker, OfferOf(st, id).bids)
    requires IsOwnerOfTokens(st, caller, OfferOf(st, id).asks)
    ensures var o := OfferOf(st, id);
      var (s, r) := AcceptTrade(st, caller, id);
      && s == Ok
      && Inv(r)
      && !IsOpen(r, id)
      && ClosesOnly(st, r, id)
      && IsOwnerOfTokens(r, o.maker, o.asks)
      && (forall i | 0 <= i < |o.bids| ::
            o.bids[i] in r.tokenOwner && r.tokenOwner[o.bids[i]] == (if ApprovedOrOwner(st, caller, o.bids[i]) then caller else o.maker))
      && AcceptTrade(r, caller, id) == (Err(NotOwner), r)
  {
    AcceptCloses(st, caller, id);
    AcceptMoves(st, caller, id);
  }

  /**
   An accept still succeeds and closes the offer when the caller may not
   move one of the bids: the caller's asks all go to the maker, while that
   bid stays with the maker, because the failed transfer's `NotApproved`
   is discarded.
   */
  lemma AcceptLeavesUnapprovedBid(st: State, caller: AccountId, id: SwapId, j: nat)
    requires Inv(st) && IsOpen(st, id) && caller != Zero
    requires caller == OfferOf(st, id).recipient
    requires Distinct(OfferOf(st, id).asks) && Distinct(OfferOf(st, id).bids)
    requires IsOwnerOfTokens(st, OfferOf(st, id).maker, OfferOf(st, id).bids)
    requires IsOwnerOfTokens(st, caller, OfferOf(st, id).asks)
    requires j < |OfferOf(st, id).bids| && !ApprovedOrOwner(st, caller, OfferOf(st, id).bids[j])
    ensures var o := OfferOf(st, id);
      var (s, r) := AcceptTrade(st, caller, id);
      && s == Ok
      && !IsOpen(r, id)
      && IsOwnerOfTokens(r, o.maker, o.asks)
      && o.bids[j] in r.tokenOwner && r.tokenOwner[o.bids[j]] == o.maker != caller
  {
    AcceptSpec(st, caller, id);
  }

  /**
   How a bid loses its approval while its offer stays open: a later
   proposal by the same maker naming the same token approves the new
   recipient in place of the earlier one.
   */
  lemma LaterProposalRevokesApproval(st: State, maker: AccountId, id: SwapId, bids: seq<TokenId>, asks: seq<TokenId>, to: AccountId, earlier: AccountId, j: nat)
    requires IsOwnerOfTokens(st, maker, bids) && IsOwnerOfTokens(st, to, asks)
    requires to != Zero && earlier != to && earlier != maker && j < |bids|
    requires !ApprovedForAll(st, maker, earlier)
    ensures var (s, r) := MakeSwapProposal(st, maker, id, bids, asks, to);
      && s == Ok
      && bids[j] in r.tokenOwner
      && !ApprovedOrOwner(r, earlier, bids[j])
  {
    var st1 := ApproveEach(st, maker, to, bids);
    var r := MakeSwapProposal(st, maker, id, bids, asks, to).1;
    assert r.operatorApprovals == st1.operatorApprovals == st.operatorApprovals;
  }

  /**
   A proposal approves its recipient for every bid, so a recipient that
   lists any token can take a bid with the `transfer` message without
   accepting: the call succeeds, the token leaves the maker, and the owner
   listing is left invalid.
   */
  lemma RecipientTransfersBidEarly(st: State, maker: AccountId, id: SwapId, bids: seq<TokenId>, asks: seq<TokenId>,
                                   to: AccountId, destination: AccountId, j: nat)
    requires TokensConsistent(st.ownedTokens, st.tokenOwner)
    requires IsOwnerOfTokens(st, maker, bids) && IsOwnerOfTokens(st, to, asks)
    requires to != Zero && to != maker && j < |bids| && BalanceOf(st, to) > 0 && destination != Zero
    ensures var r := MakeSwapProposal(st, maker, id, bids, asks, to).1;
      var (s, r2) := Transfer(r, to, destination, bids[j]);
      && s == Ok
      && OwnerOf(r2, bids[j]) == Some(destination)
      && !Valid(r2.ownedTokens)
  {
    var r := MakeSwapProposal(st, maker, id, bids, asks, to).1;
    assert ApprovedOrOwner(r, to, bids[j]);
    SpenderTransferCorruptsListing(r, to, destination, bids[j]);
  }

  /** Tokens that go to the caller whenever it may move them, all of which it may, all go to the caller. */
  lemma ApprovedBundleArrives(st: State, r: State, caller: AccountId, maker: AccountId, ts: seq<TokenId>)
    requires AllApproved(st, caller, ts)
    requires forall i | 0 <= i < |ts| ::
      ts[i] in r.tokenOwner && r.tokenOwner[ts[i]] == (if ApprovedOrOwner(st, caller, ts[i]) then caller else maker)
    ensures IsOwnerOfTokens(r, caller, ts)
  {
  }

  /** An accept in which the caller may move every bid completes the exchange. */
  lemma AcceptCompletes(st: State, caller: AccountId, id: SwapId)
    requires Inv(st) && IsOpen(st, id) && caller != Zero
    requires caller == OfferOf(st, id).recipient
    requires Distinct(OfferOf(st, id).asks) && Distinct(OfferOf(st, id).bids)
    requires IsOwnerOfTokens(st, OfferOf(st, id).maker, OfferOf(st, id).bids)
    requires IsOwnerOfTokens(st, caller, OfferOf(st, id).asks)
    requires AllApproved(st, caller, OfferOf(st, id).bids)
    ensures var o := OfferOf(st, id);
      var r := AcceptTrade(st, caller, id).1;
      IsOwnerOfTokens(r, o.maker, o.asks) && IsOwnerOfTokens(r, caller, o.bids)
  {
    var o := OfferOf(st, id);
    AcceptMoves(st, caller, id);
    ApprovedBundleArrives(st, AcceptTrade(st, caller, id).1, caller, o.maker, o.bids);
  }

  /**
   The corrected accept: whenever it succeeds the exchange is complete (every
   ask is the maker's, every bid the caller's), the offer is closed and the
   invariant is kept; whenever it fails nothing is written.
   */
  lemma AcceptTradeCheckedSpec(st: State, caller: AccountId, id: SwapId)
    requires Inv(st) && caller != Zero
    ensures var o := OfferOf(st, id);
      var (s, r) := AcceptTradeChecked(st, caller, id);
      && (s == Ok ==> Inv(r) && !IsOpen(r, id) && ClosesOnly(st, r, id)
                      && IsOwnerOfTokens(r, o.maker, o.asks) && IsOwnerOfTokens(r, caller, o.bids))
      && (s != Ok ==> r == st)
  {
    if AcceptTradeChecked(st, caller, id).0 == Ok {
      AcceptCloses(st, caller, id);
      AcceptCompletes(st, caller, id);
    }
  }

  /**
   The recipient is never consulted: an account that is not the recipient,
   owns every ask and has no offers listed under it can accept. The call
   reports success, yet the removal from its own (empty) ask listing
   underflows, so the offer stays open. Under the invariant the removal
   from the maker's bids still succeeds, so the open offer loses its bid
   entry and the invariant no longer holds.
   */
  lemma StrangerAcceptLeavesOfferOpen(st: State, caller: AccountId, id: SwapId)
    requires IsOpen(st, id) && caller != OfferOf(st, id).recipient
    requires IsOwnerOfTokens(st, OfferOf(st, id).maker, OfferOf(st, id).bids)
    requires IsOwnerOfTokens(st, caller, OfferOf(st, id).asks)
    requires BalanceOfAsks(st, caller) == 0
    ensures var (s, r) := AcceptTrade(st, caller, id);
      && s == Ok
      && IsOpen(r, id)
      && r.askSwaps == st.askSwaps
      && (Inv(st) ==> id !in r.bidSwaps.reverse && !Inv(r))
  {
    StrangerAcceptKeepsAsks(st, caller, id);
    if Inv(st) {
      StrangerAcceptDropsBid(st, caller, id);
      var r := AcceptTrade(st, caller, id).1;
      assert !SwapsConsistent(r.askSwaps, r.bidSwaps, r.swaps);
    }
  }

  /** The ask half of a stranger's accept: with no asks listed, its ask removal underflows. */
  lemma StrangerAcceptKeepsAsks(st: State, caller: AccountId, id: SwapId)
    requires IsOpen(st, id)
    requires IsOwnerOfTokens(st, OfferOf(st, id).maker, OfferOf(st, id).bids)
    requires IsOwnerOfTokens(st, caller, OfferOf(st, id).asks)
    requires BalanceOfAsks(st, caller) == 0
    ensures var (s, r) := AcceptTrade(st, caller, id);
      s == Ok && r.askSwaps == st.askSwaps
  {
    assert AfterLoops(st, caller, id).askSwaps == st.askSwaps;
  }

  /** The bid half of a stranger's accept: the maker's bid entry for the offer goes. */
  lemma StrangerAcceptDropsBid(st: State, caller: AccountId, id: SwapId)
    requires Inv(st) && IsOpen(st, id)
    requires IsOwnerOfTokens(st, OfferOf(st, id).maker, OfferOf(st, id).bids)
    requires IsOwnerOfTokens(st, caller, OfferOf(st, id).asks)
    requires BalanceOfAsks(st, caller) == 0
    ensures var r := AcceptTrade(st, caller, id).1;
      && id in r.askSwaps.reverse && id !in r.bidSwaps.reverse
      && r.bidSwaps.reverse.Keys != r.askSwaps.reverse.Keys
  {
    OpenOfferListed(st, id);
    var o := OfferOf(st, id);
    RemoveListedSucceeds(st.bidSwaps, o.maker, id);
    var st2 := AfterLoops(st, caller, id);
    assert st2.bidSwaps == st.bidSwaps && st2.askSwaps == st.askSwaps;
    var r := AcceptTrade(st, caller, id).1;
    assert r.askSwaps == st.askSwaps;
    assert r.bidSwaps == Remove(st.bidSwaps, o.maker, id).1;
  }

  /**
   A stranger that has offers of its own listed can accept someone else's
   offer: the call succeeds and closes that offer, but the removal runs on
   the stranger's ask listing. Its ask count drops by one, the offer is
   still listed under its real recipient, and the ask listings are no
   longer valid.
   */
  lemma StrangerAcceptCorruptsAsks(st: State, caller: AccountId, id: SwapId)
    requires Inv(st) && IsOpen(st, id) && caller != OfferOf(st, id).recipient
    requires IsOwnerOfTokens(st, OfferOf(st, id).maker, OfferOf(st, id).bids)
    requires IsOwnerOfTokens(st, caller, OfferOf(st, id).asks)
    requires BalanceOfAsks(st, caller) > 0
    ensures var (s, r) := AcceptTrade(st, caller, id);
      && s == Ok
      && !IsOpen(r, id)
      && BalanceOfAsks(r, caller) + 1 == BalanceOfAsks(st, caller)
      && !Valid(r.askSwaps)
      && !Inv(r)
  {
    OpenOfferListed(st, id);
    var o := OfferOf(st, id);
    RemoveElsewhereStrands(st.askSwaps, o.recipient, caller, id);
    assert AfterLoops(st, caller, id).askSwaps == st.askSwaps;
  }
}
