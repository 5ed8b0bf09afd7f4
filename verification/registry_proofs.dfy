/**
 Properties of the token, issuer and set registries: the storage invariant
 holds initially and is kept by every successful registry operation, balances
 equal the number of owned tokens, and transfers and mints move exactly the
 entries they should.
 */
module RegistryProofs {
  import opened Common
  import opened EnumIndex
  import opened Erc721

  /** The constructor's empty storage satisfies the invariant. */
  lemma InitInv(deployer: AccountId)
    ensures Inv(Init(deployer))
    ensures forall a :: OwnedBy(Init(deployer), a) == {}
  {
    EmptyValid<AccountId, TokenId>(Zero);
    EmptyValid<AccountId, SetId>(Zero);
    EmptyValid<SetId, TokenId>(0);
    EmptyValid<AccountId, SwapId>(Zero);
  }

  /**
   The owner listing of an account holds exactly the tokens `token_owner`
   gives it, each once, so its count is the number of tokens it owns.
   */
  lemma BalanceIsOwnedCount(st: State, a: AccountId)
    requires TokensConsistent(st.ownedTokens, st.tokenOwner)
    ensures (set t | t in Items(st.ownedTokens, a)) == OwnedBy(st, a)
    ensures Distinct(Items(st.ownedTokens, a))
    ensures BalanceOf(st, a) == |OwnedBy(st, a)|
  {
    CoupledListing(st.ownedTokens, st.tokenOwner, a);
  }

  /** The storage fields a token transfer never touches. */
  ghost predicate SameNonTokenFields(st: State, r: State)
  {
    && r.operatorApprovals == st.operatorApprovals
    && r.tokenFeatures == st.tokenFeatures
    && r.issuers == st.issuers
    && r.ownedSets == st.ownedSets
    && r.setTokens == st.setTokens
    && r.contractOwner == st.contractOwner
    && r.sets == st.sets
    && r.swaps == st.swaps
    && r.bidSwaps == st.bidSwaps
    && r.askSwaps == st.askSwaps
  }

  /**
   The writes of an authorised transfer of a listed token: the owner
   listing becomes the swap-remove from `from` followed by the append to
   `to`, and only the token maps change besides.
   */
  lemma TransferSteps(st: State, caller: AccountId, from: AccountId, to: AccountId, id: TokenId)
    requires Valid(st.ownedTokens) && Holds(st.ownedTokens, from, id)
    requires id in st.tokenOwner
    requires ApprovedOrOwner(st, caller, id)
    requires to != Zero
    ensures var (s, r) := TransferTokenFrom(st, caller, from, to, id);
      && s == Ok
      && Remove(st.ownedTokens, from, id).0 == Ok
      && r.ownedTokens == Append(Remove(st.ownedTokens, from, id).1, to, id)
      && r.tokenOwner == st.tokenOwner[id := to]
      && r.tokenApprovals == st.tokenApprovals - {id}
      && SameNonTokenFields(st, r)
  {
    var ix := st.ownedTokens;
    var st1 := ClearApproval(st, id);
    var (s2, st2) := RemoveTokenFromOwnerEnumeration(st1, from, id);
    assert s2 == Ok && st2.ownedTokens == Detach(ix, from, id).1;
    var (s3, st3) := RemoveTokenFrom(st2, from, id);
    assert s3 == Ok && st3.ownedTokens == Remove(ix, from, id).1;
  }

  /**
   The writes of an authorised transfer whose removal from `from`'s listing
   succeeds, whoever owns the token: the owner listing becomes that removal
   followed by the append to `to`.
   */
  lemma TransferWrites(st: State, caller: AccountId, from: AccountId, to: AccountId, id: TokenId)
    requires id in st.tokenOwner && ApprovedOrOwner(st, caller, id) && to != Zero
    requires Remove(st.ownedTokens, from, id).0 == Ok
    ensures var (s, r) := TransferTokenFrom(st, caller, from, to, id);
      && s == Ok
      && r.ownedTokens == Append(Remove(st.ownedTokens, from, id).1, to, id)
      && r.tokenOwner == st.tokenOwner[id := to]
  {
  }


  /** An authorised transfer of an owned token to a non-null account keeps the invariant. */
  lemma TransferKeepsInv(st: State, caller: AccountId, from: AccountId, to: AccountId, id: TokenId)
    requires Inv(st)
    requires id in st.tokenOwner && st.tokenOwner[id] == from
    requires ApprovedOrOwner(st, caller, id)
    requires to != Zero
    ensures TransferTokenFrom(st, caller, from, to, id).0 == Ok
    ensures Inv(TransferTokenFrom(st, caller, from, to, id).1)
  {
    TransferStepTokens(st, caller, from, to, id);
    assert Holds(st.ownedTokens, from, id);
    TransferSteps(st, caller, from, to, id);
  }

  /** One transfer of a token owned by `from` keeps the owner listings coupled with `token_owner`, whether or not it succeeds. */
  lemma TransferStepTokens(st: State, caller: AccountId, from: AccountId, to: AccountId, t: TokenId)
    requires TokensConsistent(st.ownedTokens, st.tokenOwner) && to != Zero
    requires t in st.tokenOwner && st.tokenOwner[t] == from
    ensures var r := TransferTokenFrom(st, caller, from, to, t).1;
      TokensConsistent(r.ownedTokens, r.tokenOwner)
  {
    if ApprovedOrOwner(st, caller, t) {
      assert Holds(st.ownedTokens, from, t);
      TransferSteps(st, caller, from, to, t);
      CoupledMove(st.ownedTokens, st.tokenOwner, t, from, to);
      assert from != Zero;
    }
  }

  /**
   A transfer by an authorised caller of a token owned by `from` to a
   non-null account succeeds, clears the approval, hands the token to `to`,
   moves one unit of balance from `from` to `to`, places the token last in
   `to`'s listing and keeps the invariant.
   */
  lemma TransferSpec(st: State, caller: AccountId, from: AccountId, to: AccountId, id: TokenId)
    requires Inv(st)
    requires id in st.tokenOwner && st.tokenOwner[id] == from
    requires ApprovedOrOwner(st, caller, id)
    requires to != Zero
    ensures var (s, r) := TransferTokenFrom(st, caller, from, to, id);
      && s == Ok
      && Inv(r)
      && r.tokenOwner == st.tokenOwner[id := to]
      && r.tokenApprovals == st.tokenApprovals - {id}
      && (forall a :: BalanceOf(r, a) == BalanceOf(st, a) - (if a == from then 1 else 0) + (if a == to then 1 else 0))
      && BalanceOf(r, to) > 0 && TokenOfOwnerByIndex(r, to, BalanceOf(r, to) - 1) == Some(id)
      && SameNonTokenFields(st, r)
  {
    TransferKeepsInv(st, caller, from, to, id);
    assert Holds(st.ownedTokens, from, id);
    TransferSteps(st, caller, from, to, id);
    MoveCounts(st.ownedTokens, from, id, to);
  }

  /** The `transfer` message keeps the invariant when the caller owns the token. */
  lemma TransferMessageSpec(st: State, caller: AccountId, destination: AccountId, id: TokenId)
    requires Inv(st)
    requires id in st.tokenOwner && st.tokenOwner[id] == caller
    requires destination != Zero
    ensures var (s, r) := Transfer(st, caller, destination, id);
      && s == Ok
      && Inv(r)
      && OwnerOf(r, id) == Some(destination)
      && (caller != destination ==> BalanceOf(r, caller) + 1 == BalanceOf(st, caller)
                                    && BalanceOf(r, destination) == BalanceOf(st, destination) + 1)
  {
    assert caller != Zero;
    TransferSpec(st, caller, caller, destination, id);
  }

  /**
   The `transfer` message by a caller that holds the token's approval (or
   operates for its owner) but does not own it: the contract removes the
   token from the caller's listing instead of the owner's. It succeeds
   exactly when the caller lists at least one token; then the destination
   owns the token, the owner's balance does not drop, the caller's balance
   drops although the caller gave nothing away, and the owner listing is no
   longer valid (the token sits in two slots).
   */
  lemma SpenderTransferCorruptsListing(st: State, caller: AccountId, destination: AccountId, id: TokenId)
    requires TokensConsistent(st.ownedTokens, st.tokenOwner)
    requires id in st.tokenOwner && st.tokenOwner[id] != caller && ApprovedOrOwner(st, caller, id)
    requires destination != Zero
    ensures var (s, r) := Transfer(st, caller, destination, id);
      && (s == Ok <==> BalanceOf(st, caller) > 0)
      && (s == Ok ==>
            && OwnerOf(r, id) == Some(destination)
            && BalanceOf(r, st.tokenOwner[id]) >= BalanceOf(st, st.tokenOwner[id])
            && (destination != caller ==> BalanceOf(r, caller) + 1 == BalanceOf(st, caller))
            && !Valid(r.ownedTokens))
  {
    if BalanceOf(st, caller) > 0 {
      SpenderTransferWrites(st, caller, destination, id);
    }
  }

  /** The successful case of `SpenderTransferCorruptsListing`. */
  lemma SpenderTransferWrites(st: State, caller: AccountId, destination: AccountId, id: TokenId)
    requires TokensConsistent(st.ownedTokens, st.tokenOwner)
    requires id in st.tokenOwner && st.tokenOwner[id] != caller && ApprovedOrOwner(st, caller, id)
    requires destination != Zero && BalanceOf(st, caller) > 0
    ensures var (s, r) := Transfer(st, caller, destination, id);
      && s == Ok
      && OwnerOf(r, id) == Some(destination)
      && BalanceOf(r, st.tokenOwner[id]) >= BalanceOf(st, st.tokenOwner[id])
      && (destination != caller ==> BalanceOf(r, caller) + 1 == BalanceOf(st, caller))
      && !Valid(r.ownedTokens)
  {
    var owner := st.tokenOwner[id];
    assert Holds(st.ownedTokens, owner, id);
    RemoveElsewhereListsTwice(st.ownedTokens, owner, caller, id, destination);
    TransferWrites(st, caller, caller, destination, id);
    var r := Transfer(st, caller, destination, id).1;
    assert r.ownedTokens == Append(Remove(st.ownedTokens, caller, id).1, destination, id);
  }


  /**
   A transfer to the null account is refused with `NotAllowed` only by
   `add_token_to`, after the token has left `from`'s listing and its owner
   entry and has been written into slot 0 of the null account's listing: the
   token no longer has an owner, and the owner listing is invalid.
   */
  lemma TransferToNullDropsToken(st: State, caller: AccountId, from: AccountId, id: TokenId)
    requires TokensConsistent(st.ownedTokens, st.tokenOwner)
    requires id in st.tokenOwner && st.tokenOwner[id] == from && ApprovedOrOwner(st, caller, id)
    ensures var (s, r) := TransferTokenFrom(st, caller, from, Zero, id);
      && s == Err(NotAllowed)
      && id !in r.tokenOwner
      && TokenOfOwnerByIndex(r, Zero, 0) == Some(id)
      && BalanceOf(r, Zero) == 0
      && !Valid(r.ownedTokens)
  {
  }


  /**
   The corrected `transfer` refuses every caller but the owner and a null
   destination before writing, and otherwise keeps the invariant while
   moving one unit of balance from the caller to the destination.
   */
  lemma TransferCheckedSpec(st: State, caller: AccountId, destination: AccountId, id: TokenId)
    requires Inv(st)
    ensures var (s, r) := TransferChecked(st, caller, destination, id);
      && (s == Ok <==> id in st.tokenOwner && st.tokenOwner[id] == caller && destination != Zero)
      && (s != Ok ==> r == st)
      && (s == Ok ==>
            && Inv(r)
            && r.tokenOwner == st.tokenOwner[id := destination]
            && (forall a :: BalanceOf(r, a) == BalanceOf(st, a) - (if a == caller then 1 else 0) + (if a == destination then 1 else 0)))
  {
    if id in st.tokenOwner && st.tokenOwner[id] == caller && destination != Zero {
      assert Holds(st.ownedTokens, caller, id);
      assert caller != Zero;
      TransferSpec(st, caller, caller, destination, id);
    }
  }

  /** The writes of a successful mint: both listings grow by an append and the owner is recorded. */
  lemma MintWrites(st: State, caller: AccountId, sid: SetId, id: TokenId, name: string, image: string,
                   hasDiscount: bool, discount: string, to: AccountId)
    requires SetOwner(st, sid) == Some(caller)
    requires id !in st.tokenOwner && to != Zero
    ensures var (s, r) := Mint(st, caller, sid, id, name, image, hasDiscount, discount, to);
      && s == Ok
      && r.ownedTokens == Append(st.ownedTokens, to, id)
      && r.setTokens == Append(st.setTokens, sid, id)
      && r.tokenOwner == st.tokenOwner[id := to]
      && r.ownedSets == st.ownedSets && r.sets == st.sets
      && r.swaps == st.swaps && r.askSwaps == st.askSwaps && r.bidSwaps == st.bidSwaps
  {
  }

  /** A mint by the set's owner of a fresh token id to a non-null account succeeds and keeps the invariant. */
  lemma MintKeepsInv(st: State, caller: AccountId, sid: SetId, id: TokenId, name: string, image: string,
                     hasDiscount: bool, discount: string, to: AccountId)
    requires Inv(st)
    requires SetOwner(st, sid) == Some(caller)
    requires id !in st.tokenOwner && to != Zero
    ensures Mint(st, caller, sid, id, name, image, hasDiscount, discount, to).0 == Ok
    ensures Inv(Mint(st, caller, sid, id, name, image, hasDiscount, discount, to).1)
  {
    MintWrites(st, caller, sid, id, name, image, hasDiscount, discount, to);
    CoupledAppend(st.ownedTokens, st.tokenOwner, to, id);
    assert id !in st.setTokens.reverse;
    AppendValid(st.setTokens, sid, id);
  }

  /**
   A mint by the set's owner of a fresh token id to a non-null account
   succeeds and keeps the invariant; the token joins both the recipient's
   listing and the set's listing.
   */
  lemma MintSpec(st: State, caller: AccountId, sid: SetId, id: TokenId, name: string, image: string,
                 hasDiscount: bool, discount: string, to: AccountId)
    requires Inv(st)
    requires SetOwner(st, sid) == Some(caller)
    requires id !in st.tokenOwner && to != Zero
    ensures var (s, r) := Mint(st, caller, sid, id, name, image, hasDiscount, discount, to);
      && s == Ok
      && Inv(r)
      && r.tokenOwner == st.tokenOwner[id := to]
      && Items(r.ownedTokens, to) == Items(st.ownedTokens, to) + [id]
      && Items(r.setTokens, sid) == Items(st.setTokens, sid) + [id]
  {
    MintKeepsInv(st, caller, sid, id, name, image, hasDiscount, discount, to);
    MintWrites(st, caller, sid, id, name, image, hasDiscount, discount, to);
    assert id !in st.ownedTokens.reverse;
    AppendValid(st.ownedTokens, to, id);
    assert id !in st.setTokens.reverse;
    AppendValid(st.setTokens, sid, id);
  }

  /**
   Minting an id that is already owned is refused with `TokenExists`, but
   only after the recipient's listing slot and the id's reverse entry have
   been written: the stray slot sits past the recipient's count, so the
   owner listing is no longer valid.
   */
  lemma MintExistingLeavesStraySlot(st: State, caller: AccountId, sid: SetId, id: TokenId, name: string, image: string,
                                    hasDiscount: bool, discount: string, to: AccountId)
    requires Inv(st)
    requires SetOwner(st, sid) == Some(caller)
    requires id in st.tokenOwner
    ensures var (s, r) := Mint(st, caller, sid, id, name, image, hasDiscount, discount, to);
      && s == Err(TokenExists)
      && TokenOfOwnerByIndex(r, to, BalanceOf(r, to)) == Some(id)
      && BalanceOf(r, to) == BalanceOf(st, to)
      && !Valid(r.ownedTokens)
  {
    var (s, r) := Mint(st, caller, sid, id, name, image, hasDiscount, discount, to);
    var n := BalanceOf(st, to);
    assert Slot(to, n) in r.ownedTokens.forward;
    assert Count(r.ownedTokens, to) == n;
  }

  /**
   Minting a fresh id to the null account is refused with `NotAllowed`, but
   only after slot 0 of the null account's listing and the id's reverse
   entry have been written: the id is now listed without an owner, so the
   owner listing is invalid and no longer agrees with `token_owner`.
   */
  lemma MintToNullLeavesStraySlot(st: State, caller: AccountId, sid: SetId, id: TokenId, name: string, image: string,
                                  hasDiscount: bool, discount: string)
    requires Inv(st)
    requires SetOwner(st, sid) == Some(caller)
    requires id !in st.tokenOwner
    ensures var (s, r) := Mint(st, caller, sid, id, name, image, hasDiscount, discount, Zero);
      && s == Err(NotAllowed)
      && TokenOfOwnerByIndex(r, Zero, 0) == Some(id)
      && BalanceOf(r, Zero) == 0
      && id in r.ownedTokens.reverse && id !in r.tokenOwner
      && !Valid(r.ownedTokens)
  {
  }


  /** Registering an issuer changes only the issuer map, so the invariant is kept. */
  lemma SetIssuerKeepsInv(st: State, caller: AccountId, to: AccountId, name: string, status: bool)
    requires Inv(st)
    ensures Inv(SetIssuer(st, caller, to, name, status).1)
  {
  }

  /**
   Creating a set under a fresh id keeps the invariant and lists the set
   under its creator.
   */
  lemma CreateNftSetSpec(st: State, caller: AccountId, id: SetId, name: string, description: string, status: bool)
    requires Inv(st)
    requires IsIssuer(st, caller) == Some(true)
    requires id !in st.sets
    ensures var (s, r) := CreateNftSet(st, caller, id, name, description, status);
      && s == Ok
      && Inv(r)
      && SetOwner(r, id) == Some(caller)
      && Items(r.ownedSets, caller) == Items(st.ownedSets, caller) + [id]
  {
    CreateNftSetWrites(st, caller, id, name, description, status);
    SetsConsistentAppend(st.ownedSets, st.sets, st.setTokens, id, NftSetFeatures(name, description, status, caller));
    assert id !in st.ownedSets.reverse;
    AppendValid(st.ownedSets, caller, id);
  }

  /** Recording a set changes the owner map at that id only. */
  lemma SetOwnersUpdate(sets: map<SetId, NftSetFeatures>, id: SetId, f: NftSetFeatures)
    ensures SetOwners(sets[id := f]) == SetOwners(sets)[id := f.owner]
  {
  }

  /** The writes of a successful set creation under a fresh id. */
  lemma CreateNftSetWrites(st: State, caller: AccountId, id: SetId, name: string, description: string, status: bool)
    requires IsIssuer(st, caller) == Some(true)
    requires id !in st.sets
    ensures var (s, r) := CreateNftSet(st, caller, id, name, description, status);
      && s == Ok
      && r.ownedSets == Append(st.ownedSets, caller, id)
      && r.sets == st.sets[id := NftSetFeatures(name, description, status, caller)]
      && r.setTokens == st.setTokens && r.tokenOwner == st.tokenOwner && r.ownedTokens == st.ownedTokens
      && r.askSwaps == st.askSwaps && r.bidSwaps == st.bidSwaps && r.swaps == st.swaps
  {
  }

  /** Listing a fresh set under its owner keeps the set part of the invariant. */
  lemma SetsConsistentAppend(ownedSets: Index<AccountId, SetId>, sets: map<SetId, NftSetFeatures>, setTokens: Index<SetId, TokenId>,
                             id: SetId, f: NftSetFeatures)
    requires SetsConsistent(ownedSets, sets, setTokens)
    requires id !in sets
    ensures SetsConsistent(Append(ownedSets, f.owner, id), sets[id := f], setTokens)
  {
    CoupledAppend(ownedSets, SetOwners(sets), f.owner, id);
    SetOwnersUpdate(sets, id, f);
  }

  /**
   Re-creating a recorded set whose status is false succeeds and appends
   its id a second time, to the new caller's listing; the listing of the
   previous owner no longer agrees with the reverse entry.
   */
  lemma CreateInactiveSetAgainRelists(st: State, caller: AccountId, id: SetId, name: string, description: string, status: bool)
    requires SetsConsistent(st.ownedSets, st.sets, st.setTokens)
    requires IsIssuer(st, caller) == Some(true)
    requires id in st.sets && !st.sets[id].status
    ensures var (s, r) := CreateNftSet(st, caller, id, name, description, status);
      && s == Ok
      && id in r.ownedSets.reverse
      && r.ownedSets.reverse[id] == IssuerSetBalance(st, caller)
      && SetOfOwnerByIndex(r, caller, IssuerSetBalance(st, caller)) == Some(id)
      && !Valid(r.ownedSets)
  {
    var ix := st.ownedSets;
    var old_owner := st.sets[id].owner;
    assert SetOwners(st.sets)[id] == old_owner;
    assert Holds(ix, old_owner, id);
    var p := ix.reverse[id];
    var n := Count(ix, caller);
    var (s, r) := CreateNftSet(st, caller, id, name, description, status);
    var rx := r.ownedSets;
    assert Slot(old_owner, p) != Slot(caller, n) by {
      if old_owner == caller {
        assert p < n;
      }
    }
    assert Slot(old_owner, p) in rx.forward && rx.forward[Slot(old_owner, p)] == id;
    assert Slot(caller, n) in rx.forward && rx.forward[Slot(caller, n)] == id;
  }
}
