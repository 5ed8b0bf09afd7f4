/**
 The contract's storage and its token registry, issuer registry and set
 registry: ownership, per-account counts, single-token approvals, the
 owner -> tokens, issuer -> sets and set -> tokens listings, the
 contract-owner gate on issuers, the issuer gate on sets and the set-owner
 gate on minting. The calling account is an explicit parameter; every
 entry point returns its outcome together with the storage it leaves,
 writes applied in the order the contract performs them.
 */
module Erc721 {
  import opened Common
  import opened EnumIndex

  datatype TokenFeatures = TokenFeatures(name: string, image: string, hasDiscount: bool, discount: string, issuer: AccountId)

  datatype IssuerFeatures = IssuerFeatures(name: string, status: bool)

  datatype NftSetFeatures = NftSetFeatures(name: string, description: string, status: bool, owner: AccountId)

  /** A proposed bundle-for-bundle exchange; `bids` are the maker's tokens, `asks` the recipient's. */
  datatype SwapOffer = SwapOffer(maker: AccountId, bids: seq<TokenId>, asks: seq<TokenId>, recipient: AccountId)

  /**
   The contract's storage. `ownedTokens.count` is `owned_tokens_count`: the
   registry raises and lowers it, the owner listing only writes slots.
   */
  datatype State = State(
    tokenOwner: map<TokenId, AccountId>,
    tokenApprovals: map<TokenId, AccountId>,
    operatorApprovals: map<(AccountId, AccountId), bool>,
    tokenFeatures: map<TokenId, TokenFeatures>,
    issuers: map<AccountId, IssuerFeatures>,
    ownedTokens: Index<AccountId, TokenId>,
    ownedSets: Index<AccountId, SetId>,
    setTokens: Index<SetId, TokenId>,
    contractOwner: AccountId,
    sets: map<SetId, NftSetFeatures>,
    swaps: map<SwapId, SwapOffer>,
    bidSwaps: Index<AccountId, SwapId>,
    askSwaps: Index<AccountId, SwapId>)

  /** The constructor: empty storage owned by the deploying account. */
  function Init(deployer: AccountId): (st: State)
    ensures st.contractOwner == deployer
    ensures forall a :: BalanceOf(st, a) == 0
  {
    State(map[], map[], map[], map[], map[], Empty(), Empty(), Empty(), deployer, map[], map[], Empty(), Empty())
  }

  // ---------------------------------------------------------------------
  // Read-only queries

  function OwnerOf(st: State, id: TokenId): Option<AccountId>
  {
    Lookup(st.tokenOwner, id)
  }

  /** `balance_of` / `balance_of_or_zero`. */
  function BalanceOf(st: State, a: AccountId): nat
  {
    Count(st.ownedTokens, a)
  }

  function TokenOfOwnerByIndex(st: State, a: AccountId, p: nat): Option<TokenId>
  {
    ItemAt(st.ownedTokens, a, p)
  }

  function IssuerSetBalance(st: State, a: AccountId): nat
  {
    Count(st.ownedSets, a)
  }

  function SetOfOwnerByIndex(st: State, a: AccountId, p: nat): Option<SetId>
  {
    ItemAt(st.ownedSets, a, p)
  }

  function NftSetBalance(st: State, sid: SetId): nat
  {
    Count(st.setTokens, sid)
  }

  function NftBySetIndex(st: State, sid: SetId, p: nat): Option<TokenId>
  {
    ItemAt(st.setTokens, sid, p)
  }

  function BalanceOfBids(st: State, a: AccountId): nat
  {
    Count(st.bidSwaps, a)
  }

  function BidOfOwnerByIndex(st: State, a: AccountId, p: nat): Option<SwapId>
  {
    ItemAt(st.bidSwaps, a, p)
  }

  function BalanceOfAsks(st: State, a: AccountId): nat
  {
    Count(st.askSwaps, a)
  }

  function AskOfOwnerByIndex(st: State, a: AccountId, p: nat): Option<SwapId>
  {
    ItemAt(st.askSwaps, a, p)
  }

  function IsIssuer(st: State, a: AccountId): Option<bool>
  {
    if a in st.issuers then Some(st.issuers[a].status) else None
  }

  /** The tokens an account owns according to `token_owner`. */
  ghost function OwnedBy(st: State, a: AccountId): set<TokenId>
  {
    KeyedTo(st.tokenOwner, a)
  }

  // ---------------------------------------------------------------------
  // Token registry

  function Exists(st: State, id: TokenId): bool
  {
    id in st.tokenOwner
  }

  /** `approved_for_all`: a missing operator entry reads as `false`. */
  function ApprovedForAll(st: State, owner: AccountId, operator: AccountId): (b: bool)
    ensures b <==> (owner, operator) in st.operatorApprovals && st.operatorApprovals[(owner, operator)]
  {
    Lookup(st.operatorApprovals, (owner, operator)).GetOr(false)
  }

  /**
   `approved_or_owner`: a non-null caller that owns the token, holds its
   single approval or is an operator of its owner. The contract unwraps the
   owner, so it is only asked about existing tokens.
   */
  function ApprovedOrOwner(st: State, caller: AccountId, id: TokenId): (b: bool)
    requires id in st.tokenOwner
    ensures b <==> caller != Zero &&
                   (caller == st.tokenOwner[id]
                    || (id in st.tokenApprovals && st.tokenApprovals[id] == caller)
                    || ApprovedForAll(st, st.tokenOwner[id], caller))
  {
    && caller != Zero
    && (Some(caller) == OwnerOf(st, id)
        || Some(caller) == Lookup(st.tokenApprovals, id)
        || ApprovedForAll(st, st.tokenOwner[id], caller))
  }

  /** `clear_approval`: drop the approval slot of `id` (never fails). */
  function ClearApproval(st: State, id: TokenId): (r: State)
    ensures id !in r.tokenApprovals
    ensures forall t | t != id :: Lookup(r.tokenApprovals, t) == Lookup(st.tokenApprovals, t)
    ensures r.tokenOwner == st.tokenOwner && r.ownedTokens == st.ownedTokens
  {
    st.(tokenApprovals := st.tokenApprovals - {id})
  }

  /**
   `add_token_to`: fails with `TokenExists` for an owned id and with
   `NotAllowed` for the null account, both before any write; otherwise
   records the owner and raises its count.
   */
  function AddTokenTo(st: State, to: AccountId, id: TokenId): (r: (Status, State))
    ensures r.0 == Err(TokenExists) <==> id in st.tokenOwner
    ensures r.0 == Err(NotAllowed) <==> id !in st.tokenOwner && to == Zero
    ensures r.0.Err? ==> r.1 == st
    ensures r.0 == Ok ==>
              && r.1.tokenOwner == st.tokenOwner[id := to]
              && BalanceOf(r.1, to) == BalanceOf(st, to) + 1
              && (forall a | a != to :: BalanceOf(r.1, a) == BalanceOf(st, a))
              && r.1.ownedTokens.forward == st.ownedTokens.forward
              && r.1.ownedTokens.reverse == st.ownedTokens.reverse
    ensures r.1 == st.(ownedTokens := r.1.ownedTokens, tokenOwner := r.1.tokenOwner)
  {
    if id in st.tokenOwner then (Err(TokenExists), st)
    else if to == Zero then (Err(NotAllowed), st)
    else (Ok, st.(ownedTokens := Bump(st.ownedTokens, to), tokenOwner := st.tokenOwner[id := to]))
  }

  /**
   `remove_token_from`: fails with `TokenNotFound` for an unowned id, then
   as `decrease_counter_of` on `from`'s count (which `from` need not own):
   `CannotFetchValue` when `from` has no counter, `Underflow` when it is 0.
   Only then does it lower the count and delete the owner entry.
   */
  function RemoveTokenFrom(st: State, from: AccountId, id: TokenId): (r: (Status, State))
    ensures r.0 == Err(TokenNotFound) <==> id !in st.tokenOwner
    ensures r.0 == Err(CannotFetchValue) <==> id in st.tokenOwner && from !in st.ownedTokens.count
    ensures r.0 == Err(Underflow) <==> id in st.tokenOwner && from in st.ownedTokens.count && st.ownedTokens.count[from] == 0
    ensures r.0 == Ok <==> id in st.tokenOwner && BalanceOf(st, from) > 0
    ensures r.0.Err? ==> r.1 == st
    ensures r.0 == Ok ==>
              && r.1.tokenOwner == st.tokenOwner - {id}
              && BalanceOf(r.1, from) + 1 == BalanceOf(st, from)
              && (forall a | a != from :: BalanceOf(r.1, a) == BalanceOf(st, a))
    ensures r.1 == st.(ownedTokens := r.1.ownedTokens, tokenOwner := r.1.tokenOwner)
  {
    if id !in st.tokenOwner then (Err(TokenNotFound), st)
    else
      var (s, ix) := Drop(st.ownedTokens, from);
      if s.Err? then (s, st)
      else (Ok, st.(ownedTokens := ix, tokenOwner := st.tokenOwner - {id}))
  }

  /**
   `add_token_to_owner_enumeration`: writes `id` at position
   `BalanceOf(to)` of `to`'s listing without raising the count; no listed
   position changes.
   */
  function AddTokenToOwnerEnumeration(st: State, to: AccountId, id: TokenId): (r: State)
    ensures TokenOfOwnerByIndex(r, to, BalanceOf(st, to)) == Some(id)
    ensures id in r.ownedTokens.reverse && r.ownedTokens.reverse[id] == BalanceOf(st, to)
    ensures forall a :: BalanceOf(r, a) == BalanceOf(st, a)
    ensures forall a, p: nat | p < BalanceOf(st, a) :: TokenOfOwnerByIndex(r, a, p) == TokenOfOwnerByIndex(st, a, p)
    ensures r == st.(ownedTokens := r.ownedTokens)
  {
    st.(ownedTokens := Place(st.ownedTokens, to, id))
  }

  /**
   `remove_token_from_owner_enumeration`: swap-remove without lowering the
   count. It fails when `from`'s count is 0, and with `CannotFetchValue` when
   the token's recorded position (0 when it has none) is not the last one
   and the last slot is empty.
   */
  function RemoveTokenFromOwnerEnumeration(st: State, from: AccountId, id: TokenId): (r: (Status, State))
    ensures r.0 == Err(Underflow) <==> BalanceOf(st, from) == 0
    ensures r.0 == Err(CannotFetchValue) <==>
              && BalanceOf(st, from) > 0
              && Lookup(st.ownedTokens.reverse, id).GetOr(0) != BalanceOf(st, from) - 1
              && Slot(from, BalanceOf(st, from) - 1) !in st.ownedTokens.forward
    ensures r.0 == Ok <==> r.0 != Err(Underflow) && r.0 != Err(CannotFetchValue)
    ensures r.0.Err? ==> r.1 == st
    ensures r.0 == Ok ==> id !in r.1.ownedTokens.reverse && forall a :: BalanceOf(r.1, a) == BalanceOf(st, a)
    ensures r.1 == st.(ownedTokens := r.1.ownedTokens)
  {
    var (s, ix) := Detach(st.ownedTokens, from, id);
    (s, st.(ownedTokens := ix))
  }

  /**
   `transfer_token_from`: `TokenNotFound` for an unowned id, `NotApproved`
   unless the caller may move it, both before any write. It then clears the
   approval, swap-removes the token from `from`'s listing, lowers `from`'s
   count, appends the token to `to`'s listing and hands it to `to`. It never
   checks that `from` is the owner.
   */
  function TransferTokenFrom(st: State, caller: AccountId, from: AccountId, to: AccountId, id: TokenId): (r: (Status, State))
    ensures id !in st.tokenOwner ==> r == (Err(TokenNotFound), st)
    ensures id in st.tokenOwner && !ApprovedOrOwner(st, caller, id) ==> r == (Err(NotApproved), st)
    ensures r.0 == Ok ==> id in r.1.tokenOwner && r.1.tokenOwner[id] == to && id !in r.1.tokenApprovals
    ensures forall u | u != id && u in st.tokenOwner :: u in r.1.tokenOwner && r.1.tokenOwner[u] == st.tokenOwner[u]
    ensures forall u | u != id :: Lookup(r.1.tokenApprovals, u) == Lookup(st.tokenApprovals, u)
    ensures r.1 == st.(ownedTokens := r.1.ownedTokens, tokenOwner := r.1.tokenOwner, tokenApprovals := r.1.tokenApprovals)
  {
    if !Exists(st, id) then (Err(TokenNotFound), st)
    else if !ApprovedOrOwner(st, caller, id) then (Err(NotApproved), st)
    else
      var st1 := ClearApproval(st, id);
      var (s2, st2) := RemoveTokenFromOwnerEnumeration(st1, from, id);
      if s2.Err? then (s2, st2)
      else
        var (s3, st3) := RemoveTokenFrom(st2, from, id);
        if s3.Err? then (s3, st3)
        else
          var st4 := AddTokenToOwnerEnumeration(st3, to, id);
          AddTokenTo(st4, to, id)
  }

  /** The `transfer` message: the caller moves a token out of its own listing. */
  function Transfer(st: State, caller: AccountId, destination: AccountId, id: TokenId): (r: (Status, State))
    ensures id !in st.tokenOwner ==> r == (Err(TokenNotFound), st)
    ensures r.0 == Ok ==> OwnerOf(r.1, id) == Some(destination)
  {
    TransferTokenFrom(st, caller, caller, destination, id)
  }

  /**
   The `transfer` message as its documentation describes it: only the
   token's owner moves it out of its own listing, and only to a non-null
   account. Both conditions are checked before any write (`NotOwner`,
   `NotAllowed`); the move itself is `transfer_token_from`.
   */
  function TransferChecked(st: State, caller: AccountId, destination: AccountId, id: TokenId): (r: (Status, State))
    ensures r.0 == Err(TokenNotFound) <==> id !in st.tokenOwner
    ensures r.0 == Err(NotOwner) <==> id in st.tokenOwner && st.tokenOwner[id] != caller
    ensures id in st.tokenOwner && st.tokenOwner[id] == caller && destination == Zero ==> r == (Err(NotAllowed), st)
    ensures r.0 == Err(TokenNotFound) || r.0 == Err(NotOwner) ==> r.1 == st
    ensures r.0 == Ok ==> OwnerOf(r.1, id) == Some(destination)
  {
    if id !in st.tokenOwner then (Err(TokenNotFound), st)
    else if st.tokenOwner[id] != caller then (Err(NotOwner), st)
    else if destination == Zero then (Err(NotAllowed), st)
    else TransferTokenFrom(st, caller, caller, destination, id)
  }

  /**
   `approve_for`: the caller must own the token or operate for its owner
   (an unowned token makes the contract panic), and the spender must not be
   the null account. The slot is then overwritten, and the call reports
   `CannotInsert` when it already held an approval.
   */
  function ApproveFor(st: State, caller: AccountId, to: AccountId, id: TokenId): (r: (Status, State))
    ensures id !in st.tokenOwner ==> r == (Err(Panic), st)
    ensures id in st.tokenOwner ==>
              (r.0 == Err(NotAllowed) <==>
                 (caller != st.tokenOwner[id] && !ApprovedForAll(st, st.tokenOwner[id], caller)) || to == Zero)
    ensures r.0 == Err(NotAllowed) || r.0 == Err(Panic) ==> r.1 == st
    ensures r.0 == Ok || r.0 == Err(CannotInsert) ==>
              && r.1 == st.(tokenApprovals := st.tokenApprovals[id := to])
              && (r.0 == Err(CannotInsert) <==> id in st.tokenApprovals)
  {
    var owner := OwnerOf(st, id);
    if owner.None? then (Err(Panic), st)
    else if !(owner.value == caller || ApprovedForAll(st, owner.value, caller)) then (Err(NotAllowed), st)
    else if to == Zero then (Err(NotAllowed), st)
    else
      var st' := st.(tokenApprovals := st.tokenApprovals[id := to]);
      if id in st.tokenApprovals then (Err(CannotInsert), st') else (Ok, st')
  }

  // ---------------------------------------------------------------------
  // Issuer and set registry

  /** `set_issuer`: an upsert that only the contract owner may make. */
  function SetIssuer(st: State, caller: AccountId, to: AccountId, name: string, status: bool): (r: (Status, State))
    ensures r.0 == Ok <==> caller == st.contractOwner
    ensures r.0 != Ok ==> r == (Err(NotContractOwner), st)
    ensures r.0 == Ok ==> r.1 == st.(issuers := st.issuers[to := IssuerFeatures(name, status)])
    ensures r.0 == Ok ==> IsIssuer(r.1, to) == Some(status)
  {
    if caller == st.contractOwner then (Ok, st.(issuers := st.issuers[to := IssuerFeatures(name, status)]))
    else (Err(NotContractOwner), st)
  }

  /** `add_set_to_enumeration`: append a set id to an issuer's listing. */
  function AddSetToEnumeration(st: State, to: AccountId, sid: SetId): (r: State)
    ensures SetOfOwnerByIndex(r, to, IssuerSetBalance(st, to)) == Some(sid)
    ensures IssuerSetBalance(r, to) == IssuerSetBalance(st, to) + 1
    ensures forall a | a != to :: IssuerSetBalance(r, a) == IssuerSetBalance(st, a)
  {
    st.(ownedSets := Append(st.ownedSets, to, sid))
  }

  /** The status flag of a recorded set. */
  function SetStatus(st: State, sid: SetId): Option<bool>
  {
    if sid in st.sets then Some(st.sets[sid].status) else None
  }

  /**
   `create_nft_set`: `NotIssuer` unless the caller's issuer status is
   `Some(true)`, and also when the id already names a set whose status is
   true; otherwise records the set with the caller as owner and appends it
   to the caller's set listing. A recorded set whose status is false can be
   created again.
   */
  function CreateNftSet(st: State, caller: AccountId, id: SetId, name: string, description: string, status: bool): (r: (Status, State))
    ensures r.0 == Ok <==> IsIssuer(st, caller) == Some(true) && SetStatus(st, id) != Some(true)
    ensures r.0 != Ok ==> r == (Err(NotIssuer), st)
    ensures r.0 == Ok ==>
              && r.1.sets == st.sets[id := NftSetFeatures(name, description, status, caller)]
              && SetOfOwnerByIndex(r.1, caller, IssuerSetBalance(st, caller)) == Some(id)
              && IssuerSetBalance(r.1, caller) == IssuerSetBalance(st, caller) + 1
  {
    if IsIssuer(st, caller) == Some(true) then
      if SetStatus(st, id) != Some(true) then
        var st1 := st.(sets := st.sets[id := NftSetFeatures(name, description, status, caller)]);
        (Ok, AddSetToEnumeration(st1, caller, id))
      else (Err(NotIssuer), st)
    else (Err(NotIssuer), st)
  }

  /** `increment_nft_token_set`: one more token counted under a set. */
  function IncrementNftTokenSet(st: State, sid: SetId): (r: State)
    ensures NftSetBalance(r, sid) == NftSetBalance(st, sid) + 1
    ensures forall s | s != sid :: NftSetBalance(r, s) == NftSetBalance(st, s)
  {
    st.(setTokens := Bump(st.setTokens, sid))
  }

  /** `add_token_to_set_enumeration`: append a token to a set's listing. */
  function AddTokenToSetEnumeration(st: State, sid: SetId, id: TokenId): (r: State)
    ensures NftBySetIndex(r, sid, NftSetBalance(st, sid)) == Some(id)
    ensures NftSetBalance(r, sid) == NftSetBalance(st, sid) + 1
    ensures r.setTokens == Append(st.setTokens, sid, id)
  {
    IncrementNftTokenSet(st.(setTokens := Place(st.setTokens, sid, id)), sid)
  }

  /** The recorded owner of a set. */
  function SetOwner(st: State, sid: SetId): Option<AccountId>
  {
    if sid in st.sets then Some(st.sets[sid].owner) else None
  }

  /**
   `mint`: `NotIssuer` unless the caller is the recorded owner of the set
   (its status is not consulted). It then writes the owner listing slot,
   and only after that can `add_token_to` fail; on success the token is
   appended to the set's listing and its features are recorded with the
   caller as issuer.
   */
  function Mint(st: State, caller: AccountId, sid: SetId, id: TokenId, name: string, image: string,
                hasDiscount: bool, discount: string, to: AccountId): (r: (Status, State))
    ensures SetOwner(st, sid) != Some(caller) ==> r == (Err(NotIssuer), st)
    ensures SetOwner(st, sid) == Some(caller) ==>
              && (r.0 == Err(TokenExists) <==> id in st.tokenOwner)
              && (r.0 == Err(NotAllowed) <==> id !in st.tokenOwner && to == Zero)
    ensures r.0 == Ok ==>
              && OwnerOf(r.1, id) == Some(to)
              && BalanceOf(r.1, to) == BalanceOf(st, to) + 1
              && TokenOfOwnerByIndex(r.1, to, BalanceOf(st, to)) == Some(id)
              && NftBySetIndex(r.1, sid, NftSetBalance(st, sid)) == Some(id)
              && NftSetBalance(r.1, sid) == NftSetBalance(st, sid) + 1
              && Lookup(r.1.tokenFeatures, id) == Some(TokenFeatures(name, image, hasDiscount, discount, caller))
  {
    if SetOwner(st, sid) == Some(caller) then
      var st1 := AddTokenToOwnerEnumeration(st, to, id);
      var (s2, st2) := AddTokenTo(st1, to, id);
      if s2.Err? then (s2, st2)
      else
        var st3 := AddTokenToSetEnumeration(st2, sid, id);
        (Ok, st3.(tokenFeatures := st3.tokenFeatures[id := TokenFeatures(name, image, hasDiscount, discount, caller)]))
    else (Err(NotIssuer), st)
  }

  // ---------------------------------------------------------------------
  // Storage invariant

  /** Owner listings agree with `token_owner`, and the null account lists nothing. */
  ghost predicate TokensConsistent(ownedTokens: Index<AccountId, TokenId>, tokenOwner: map<TokenId, AccountId>)
  {
    && Coupled(ownedTokens, tokenOwner)
    && Count(ownedTokens, Zero) == 0
  }

  /** The recorded owner of every set. */
  ghost function SetOwners(sets: map<SetId, NftSetFeatures>): map<SetId, AccountId>
  {
    map s | s in sets :: sets[s].owner
  }

  /** Issuer listings agree with the recorded set owners; set listings are valid and belong to recorded sets. */
  ghost predicate SetsConsistent(ownedSets: Index<AccountId, SetId>, sets: map<SetId, NftSetFeatures>, setTokens: Index<SetId, TokenId>)
  {
    && Coupled(ownedSets, SetOwners(sets))
    && Valid(setTokens)
    && setTokens.count.Keys <= sets.Keys
  }

  /** The recipient of every open offer. */
  ghost function Recipients(open: set<SwapId>, swaps: map<SwapId, SwapOffer>): map<SwapId, AccountId>
  {
    map id | id in open && id in swaps :: swaps[id].recipient
  }

  /** The maker of every open offer. */
  ghost function Makers(open: set<SwapId>, swaps: map<SwapId, SwapOffer>): map<SwapId, AccountId>
  {
    map id | id in open && id in swaps :: swaps[id].maker
  }

  /**
   An offer is open when its id has an ask entry; then it also has a bid
   entry, its record exists, and it is listed under its recipient's asks
   and its maker's bids. The null account makes no offers.
   */
  ghost predicate SwapsConsistent(askSwaps: Index<AccountId, SwapId>, bidSwaps: Index<AccountId, SwapId>, swaps: map<SwapId, SwapOffer>)
  {
    && askSwaps.reverse.Keys <= swaps.Keys
    && bidSwaps.reverse.Keys == askSwaps.reverse.Keys
    && Coupled(askSwaps, Recipients(askSwaps.reverse.Keys, swaps))
    && Coupled(bidSwaps, Makers(askSwaps.reverse.Keys, swaps))
    && Count(bidSwaps, Zero) == 0
  }

  /** The storage invariant: the three groups of listings agree with their maps, and set listings hold minted tokens. */
  ghost predicate Inv(st: State)
  {
    && TokensConsistent(st.ownedTokens, st.tokenOwner)
    && SetsConsistent(st.ownedSets, st.sets, st.setTokens)
    && st.setTokens.reverse.Keys <= st.tokenOwner.Keys
    && SwapsConsistent(st.askSwaps, st.bidSwaps, st.swaps)
  }

  /** An offer is open while its id is in the ask reverse index. */
  predicate IsOpen(st: State, id: SwapId)
  {
    id in st.askSwaps.reverse
  }
}
