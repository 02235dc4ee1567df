/**
 * The write-buffering overlay (revm's `CacheDB`) in front of a read-only
 * state provider. Reads look at the pending writes first and fall through to
 * the provider; writes land in the overlay only.
 */
module StateOverlay {
  import opened Bits
  import opened Wrappers

  /** A 20-byte account address. */
  type Address = x: nat | x < TWO_160

  /** One storage word of one account. */
  type StorageKey = (Address, U256)

  /** The provider could not answer a storage query. */
  datatype DbError = ProviderFault

  /**
   * The external state provider: the accounts it knows, the addresses whose
   * account lookup fails, the storage words it holds (a slot it has no word
   * for reads as zero, as in the EVM), and the storage queries that fail.
   */
  datatype Provider = Provider(accounts: set<Address>, accountFaults: set<Address>, storage: map<StorageKey, U256>, faults: set<StorageKey>)
  {
    /** `DatabaseRef::basic_ref` of the provider, reduced to whether the account exists. */
    function BasicRef(address: Address): (r: Result<bool, DbError>)
    {
      if address in accountFaults then Err(ProviderFault) else Ok(address in accounts)
    }

    /** `DatabaseRef::storage_ref` of the provider. */
    function StorageRef(address: Address, slot: U256): (r: Result<U256, DbError>)
    {
      if (address, slot) in faults then Err(ProviderFault)
      else if (address, slot) in storage then Ok(storage[(address, slot)])
      else Ok(0)
    }
  }

  /** A storage read through the overlay: a pending write wins over the provider. */
  function Read(db: Provider, overrides: map<StorageKey, U256>, address: Address, slot: U256): (r: Result<U256, DbError>)
  {
    if (address, slot) in overrides then Ok(overrides[(address, slot)]) else db.StorageRef(address, slot)
  }

  class CacheDb {
    /** The provider behind the overlay; it is never written. */
    const db: Provider
    /** The pending storage writes. */
    var overrides: map<StorageKey, U256>

    /** `CacheDB::new(db)`: an overlay with no pending writes. */
    constructor (db: Provider)
      ensures this.db == db && overrides == map[]
    {
      this.db := db;
      overrides := map[];
    }

    /** `basic_ref` through the overlay: no account is ever written, so the provider answers. */
    function BasicRef(address: Address): (r: Result<bool, DbError>)
    {
      db.BasicRef(address)
    }

    /** `storage_ref` through the overlay. */
    function StorageRef(address: Address, slot: U256): (r: Result<U256, DbError>)
      reads this
    {
      Read(db, overrides, address, slot)
    }

    /**
     * `insert_account_storage`: afterwards the slot reads as the new value,
     * every other slot reads as before, and the provider is untouched.
     */
    method InsertAccountStorage(address: Address, slot: U256, value: U256)
      modifies this
      ensures overrides == old(overrides)[(address, slot) := value]
      ensures StorageRef(address, slot) == Ok(value)
      ensures forall a: Address, s: U256 :: (a, s) != (address, slot) ==> StorageRef(a, s) == old(StorageRef(a, s))
    {
      overrides := overrides[(address, slot) := value];
    }
  }
}
