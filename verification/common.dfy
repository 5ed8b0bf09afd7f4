/**
 Shared vocabulary of the NFT registry model: account and item identifiers,
 the contract's error kinds, call outcomes and an explicit optional value
 (the contract itself answers "absent" with a 0 sentinel or a default).
 */
module Common {

  /** An account. The contract's 32-byte account ids are modelled as naturals. */
  type AccountId = nat

  /** The all-zero account `AccountId::from([0x0; 32])`, used as the null account. */
  const Zero: AccountId := 0

  type TokenId = nat
  type SetId = nat
  type SwapId = nat

  datatype Option<+T> = None | Some(value: T) {
    /** `unwrap_or`: the value, or `default` when absent. */
    function GetOr(default: T): (r: T)
      ensures Some? ==> r == value
      ensures None? ==> r == default
    {
      match this
      case Some(v) => v
      case None => default
    }
  }

  /** Map lookup with an explicit absent result. */
  function Lookup<K(==), V>(m: map<K, V>, k: K): (r: Option<V>)
    ensures r.Some? <==> k in m
    ensures r.Some? ==> r.value == m[k]
  {
    if k in m then Some(m[k]) else None
  }

  /**
   The contract's error enumeration, plus two kinds the model adds:
   `Underflow` for the unchecked `count - 1` on an empty listing and
   `Panic` for an `expect` on an absent owner.
   */
  datatype Error =
    | NotOwner
    | NotApproved
    | TokenExists
    | TokenNotFound
    | CannotInsert
    | CannotRemove
    | CannotFetchValue
    | NotAllowed
    | NotIssuer
    | NotContractOwner
    | SetExists
    | Underflow
    | Panic

  /** The outcome of a call that returns `Result<(), Error>`. */
  datatype Status = Ok | Err(error: Error)
}
