/** The types that the components share. */
module Types {
  datatype Option<+T> = None | Some(value: T)

  type Hash = nat
  type TxHash = Hash
  type Address = nat

  /** A header with the hash it is known under.  Its transaction root commits to the body, so the
      transactions of the block are carried along.  Of the extra data only the length matters, and of the
      uncle hash only whether it is that of an empty list. */
  datatype Header = Header(hash: Hash, parent: Hash, number: int, time: int, difficulty: int, gasLimit: int,
      gasUsed: int, extra: nat, hasUncles: bool, dapp: bool, coinbase: Address, txs: seq<TxHash>)

  /** The database key of a header or block: number and hash. */
  datatype Key = Key(number: int, hash: Hash)
}
