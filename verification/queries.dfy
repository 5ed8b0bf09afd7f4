/**
 What the contract's read-only queries answer when the storage invariant
 holds: the by-position getters answer exactly below the matching count and
 name an item that really belongs to the queried key, and each count is the
 number of items the corresponding map assigns to that key.
 */
module Queries {
  import opened Common
  import opened EnumIndex
  import opened Erc721

  /** `owner_of` names an account exactly when the token is listed under that account. */
  lemma OwnerOfListed(st: State, id: TokenId, a: AccountId)
    requires TokensConsistent(st.ownedTokens, st.tokenOwner)
    ensures OwnerOf(st, id) == Some(a) <==> Holds(st.ownedTokens, a, id)
    ensures Exists(st, id) <==> OwnerOf(st, id).Some?
  {
    CoupledHolds(st.ownedTokens, st.tokenOwner, a, id);
  }

  /**
   `token_of_owner_by_index` answers exactly below `balance_of`, and every
   token it answers is owned by the queried account.
   */
  lemma TokenOfOwnerByIndexOwned(st: State, a: AccountId, p: nat)
    requires TokensConsistent(st.ownedTokens, st.tokenOwner)
    ensures TokenOfOwnerByIndex(st, a, p).Some? <==> p < BalanceOf(st, a)
    ensures TokenOfOwnerByIndex(st, a, p).Some? ==> OwnerOf(st, TokenOfOwnerByIndex(st, a, p).value) == Some(a)
  {
    CoupledItemAt(st.ownedTokens, st.tokenOwner, a, p);
  }

  /**
   `set_of_owner_by_index` answers exactly below `issuer_set_balance`, and
   every set it answers is recorded with the queried account as owner.
   */
  lemma SetOfOwnerByIndexOwned(st: State, a: AccountId, p: nat)
    requires SetsConsistent(st.ownedSets, st.sets, st.setTokens)
    ensures SetOfOwnerByIndex(st, a, p).Some? <==> p < IssuerSetBalance(st, a)
    ensures SetOfOwnerByIndex(st, a, p).Some? ==>
              SetOfOwnerByIndex(st, a, p).value in st.sets && st.sets[SetOfOwnerByIndex(st, a, p).value].owner == a
  {
    CoupledItemAt(st.ownedSets, SetOwners(st.sets), a, p);
  }

  /** `issuer_set_balance` is the number of recorded sets the account owns. */
  lemma IssuerSetBalanceCounts(st: State, a: AccountId)
    requires SetsConsistent(st.ownedSets, st.sets, st.setTokens)
    ensures IssuerSetBalance(st, a) == |set sid | sid in st.sets && st.sets[sid].owner == a|
  {
    CoupledListing(st.ownedSets, SetOwners(st.sets), a);
    assert KeyedTo(SetOwners(st.sets), a) == set sid | sid in st.sets && st.sets[sid].owner == a;
  }

  /**
   `nft_by_set_index` answers exactly below `nft_set_balance`; the set lists
   that many tokens, none twice, and each of them is minted.
   */
  lemma NftBySetIndexMinted(st: State, sid: SetId, p: nat)
    requires Inv(st)
    ensures NftBySetIndex(st, sid, p).Some? <==> p < NftSetBalance(st, sid)
    ensures NftBySetIndex(st, sid, p).Some? ==> Exists(st, NftBySetIndex(st, sid, p).value)
    ensures |Items(st.setTokens, sid)| == NftSetBalance(st, sid) && Distinct(Items(st.setTokens, sid))
  {
    ItemAtDense(st.setTokens, sid, p);
    ItemsDistinct(st.setTokens, sid);
  }

  /**
   `ask_of_owner_by_index` answers exactly below `balance_of_asks`, and every
   offer it answers is open and addressed to the queried account.
   */
  lemma AskOfOwnerByIndexOpen(st: State, a: AccountId, p: nat)
    requires SwapsConsistent(st.askSwaps, st.bidSwaps, st.swaps)
    ensures AskOfOwnerByIndex(st, a, p).Some? <==> p < BalanceOfAsks(st, a)
    ensures AskOfOwnerByIndex(st, a, p).Some? ==>
              var id := AskOfOwnerByIndex(st, a, p).value;
              IsOpen(st, id) && id in st.swaps && st.swaps[id].recipient == a
  {
    CoupledItemAt(st.askSwaps, Recipients(st.askSwaps.reverse.Keys, st.swaps), a, p);
  }

  /**
   `bid_of_owner_by_index` answers exactly below `balance_of_bids`, and every
   offer it answers is open and made by the queried account.
   */
  lemma BidOfOwnerByIndexOpen(st: State, a: AccountId, p: nat)
    requires SwapsConsistent(st.askSwaps, st.bidSwaps, st.swaps)
    ensures BidOfOwnerByIndex(st, a, p).Some? <==> p < BalanceOfBids(st, a)
    ensures BidOfOwnerByIndex(st, a, p).Some? ==>
              var id := BidOfOwnerByIndex(st, a, p).value;
              IsOpen(st, id) && id in st.swaps && st.swaps[id].maker == a
  {
    CoupledItemAt(st.bidSwaps, Makers(st.askSwaps.reverse.Keys, st.swaps), a, p);
  }

  /** `balance_of_asks` counts the open offers addressed to the account. */
  lemma AskBalanceCounts(st: State, a: AccountId)
    requires Coupled(st.askSwaps, Recipients(st.askSwaps.reverse.Keys, st.swaps))
    ensures BalanceOfAsks(st, a) == |set id | id in st.askSwaps.reverse && id in st.swaps && st.swaps[id].recipient == a|
  {
    var keyOf := Recipients(st.askSwaps.reverse.Keys, st.swaps);
    CoupledListing(st.askSwaps, keyOf, a);
    assert KeyedTo(keyOf, a) == set id | id in st.askSwaps.reverse && id in st.swaps && st.swaps[id].recipient == a;
  }

  /** `balance_of_bids` counts the open offers the account made. */
  lemma BidBalanceCounts(st: State, a: AccountId)
    requires Coupled(st.bidSwaps, Makers(st.askSwaps.reverse.Keys, st.swaps))
    ensures BalanceOfBids(st, a) == |set id | id in st.askSwaps.reverse && id in st.swaps && st.swaps[id].maker == a|
  {
    var keyOf := Makers(st.askSwaps.reverse.Keys, st.swaps);
    CoupledListing(st.bidSwaps, keyOf, a);
    assert KeyedTo(keyOf, a) == set id | id in st.askSwaps.reverse && id in st.swaps && st.swaps[id].maker == a;
  }
}
