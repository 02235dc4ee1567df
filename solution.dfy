/**
 * The solver: it walks the linked list stored in the contract's value map,
 * starting at key 0, records every key whose word is not zero, sets the
 * unlocked flag of each node in the overlay, and finally hands the keys and
 * the overlay to the contract's `isSolved` call.
 *
 * The walk is specified on the overlay as it was before the walk started:
 * `KeyAt(e, ov, i)` is the i-th key of the chain, `Live` says that a key's
 * word reads and is not zero, and `Flagged` is the overlay after the flags of
 * the first n nodes are set. These lemmas hold for any slot function in the
 * environment `Env`, and for any next-key rule; those about reads through the
 * flagged overlay need a rule that ignores the flag (`FlagBlind`). `WalkEnv`
 * fixes them to the mapping slots of mapping slot 2 and to `NextKey`, the rule
 * the solver uses, which `WalkEnvFlagBlind` shows ignores the flag.
 */
module Solution {
  import opened Bits
  import opened Wrappers
  import opened StorageSlot
  import opened PackedRecord
  import opened StateOverlay

  /** The value map is the contract's third state variable, after the `_a` and `_b` mappings. */
  const VALUE_MAP_SLOT: U256 := 2

  /** The contract's constructor puts the first node at key 0. */
  const START_KEY: U256 := 0

  /** How the contract's `isSolved(uint256[])` call can go wrong. */
  datatype CallError = ExecutionFailed | UnexpectedOutput | DecodeFailed | Reverted(output: seq<Byte>) | Halted

  datatype SolveError = AccountLoadFailed | AccountNotFound | StorageReadFailed | CallFailed(reason: CallError)

  /** The `isSolved` call, run against the given keys and the overlay's pending writes. */
  type IsSolvedCall = (seq<U256>, map<StorageKey, U256>) -> Result<bool, CallError>

  /**
   * What a walk depends on besides the overlay: where each key's node is
   * stored, how a node's word names the next key, the provider and the
   * contract.
   */
  datatype Env = Env(slotOf: U256 -> U256, nextOf: U256 -> U256, db: Provider, address: Address)

  /** The environment of a walk of the value map with the given hash. */
  function WalkEnv(keccak: Hasher, db: Provider, address: Address): (r: Env)
  {
    Env(key => CalculateStorageSlot(keccak, key, VALUE_MAP_SLOT), NextKey, db, address)
  }

  /** The next-key rule does not look at the unlocked flag. */
  ghost predicate FlagBlind(e: Env)
  {
    forall w: U256 :: e.nextOf(SetFlag(w)) == e.nextOf(w)
  }

  /** The solver's next-key rule ignores the flag it sets. */
  lemma WalkEnvFlagBlind(keccak: Hasher, db: Provider, address: Address)
    ensures FlagBlind(WalkEnv(keccak, db, address))
  {
    forall w: U256
      ensures NextKey(SetFlag(w)) == NextKey(w)
    {
      NextKeyIgnoresFlag(w);
    }
  }

  /** The storage slot of the node with this key. */
  function SlotOf(e: Env, key: U256): (r: U256)
  {
    e.slotOf(key)
  }

  /** The word of the node with this key, read through the overlay `ov`. */
  function WordOf(e: Env, ov: map<StorageKey, U256>, key: U256): (r: Result<U256, DbError>)
  {
    Read(e.db, ov, e.address, SlotOf(e, key))
  }

  /** A node is present at `key`: its word reads and is not zero. */
  predicate Live(e: Env, ov: map<StorageKey, U256>, key: U256)
  {
    WordOf(e, ov, key).Ok? && WordOf(e, ov, key).value != 0
  }

  function Successor(e: Env, ov: map<StorageKey, U256>, key: U256): (r: U256)
  {
    match WordOf(e, ov, key)
    case Ok(w) => e.nextOf(w)
    case Err(_) => key
  }

  /** The i-th key of the chain that starts at key 0. */
  function KeyAt(e: Env, ov: map<StorageKey, U256>, i: nat): (r: U256)
  {
    if i == 0 then START_KEY else Successor(e, ov, KeyAt(e, ov, i - 1))
  }

  predicate AllLive(e: Env, ov: map<StorageKey, U256>, n: nat)
  {
    forall i: nat :: i < n ==> Live(e, ov, KeyAt(e, ov, i))
  }

  /** Some key of the chain has a zero or unreadable word, so the walk ends. */
  ghost predicate Terminates(e: Env, ov: map<StorageKey, U256>)
  {
    exists n: nat :: !Live(e, ov, KeyAt(e, ov, n))
  }

  /** The first n keys of the chain, in order. */
  function Chain(e: Env, ov: map<StorageKey, U256>, n: nat): (keys: seq<U256>)
    ensures |keys| == n
    ensures forall i :: 0 <= i < n ==> keys[i] == KeyAt(e, ov, i)
  {
    if n == 0 then [] else Chain(e, ov, n - 1) + [KeyAt(e, ov, n - 1)]
  }

  /** The overlay after the flags of the first n nodes are written. */
  function Flagged(e: Env, ov: map<StorageKey, U256>, n: nat): (r: map<StorageKey, U256>)
    requires AllLive(e, ov, n)
  {
    if n == 0 then ov
    else
      var key := KeyAt(e, ov, n - 1);
      Flagged(e, ov, n - 1)[(e.address, SlotOf(e, key)) := SetFlag(WordOf(e, ov, key).value)]
  }

  /** The storage word `sk` is the slot of one of the first n keys. */
  ghost predicate Touched(e: Env, ov: map<StorageKey, U256>, n: nat, sk: StorageKey)
  {
    exists i: nat :: i < n && sk == (e.address, SlotOf(e, KeyAt(e, ov, i)))
  }

  predicate SameEntry(m1: map<StorageKey, U256>, m2: map<StorageKey, U256>, sk: StorageKey)
  {
    (sk in m1 <==> sk in m2) && (sk in m1 ==> m1[sk] == m2[sk])
  }

  lemma AllLiveStep(e: Env, ov: map<StorageKey, U256>, n: nat)
    requires AllLive(e, ov, n) && Live(e, ov, KeyAt(e, ov, n))
    ensures AllLive(e, ov, n + 1)
  {
  }

  /** The first key whose word is zero or unreadable, searching from i on. */
  function FirstEnd(e: Env, ov: map<StorageKey, U256>, i: nat, n: nat): (m: nat)
    requires i <= n && AllLive(e, ov, i) && !Live(e, ov, KeyAt(e, ov, n))
    ensures i <= m <= n && AllLive(e, ov, m) && !Live(e, ov, KeyAt(e, ov, m))
    decreases n - i
  {
    if !Live(e, ov, KeyAt(e, ov, i)) then i
    else
      AllLiveStep(e, ov, i);
      FirstEnd(e, ov, i + 1, n)
  }

  /** The number of nodes the walk records. */
  ghost function EndIndex(e: Env, ov: map<StorageKey, U256>): (n: nat)
    requires Terminates(e, ov)
    ensures AllLive(e, ov, n) && !Live(e, ov, KeyAt(e, ov, n))
  {
    var m: nat :| !Live(e, ov, KeyAt(e, ov, m));
    FirstEnd(e, ov, 0, m)
  }

  /** What the walk returns: the keys before the first zero word, or the read failure. */
  ghost function WalkResult(e: Env, ov: map<StorageKey, U256>): (r: Result<seq<U256>, SolveError>)
    requires Terminates(e, ov)
  {
    var n := EndIndex(e, ov);
    if WordOf(e, ov, KeyAt(e, ov, n)).Err? then Err(StorageReadFailed) else Ok(Chain(e, ov, n))
  }

  /** The overlay's pending writes once the walk has ended. */
  ghost function FinalOverrides(e: Env, ov: map<StorageKey, U256>): (r: map<StorageKey, U256>)
    requires Terminates(e, ov)
  {
    Flagged(e, ov, EndIndex(e, ov))
  }

  /** The walk of a fresh overlay followed by the `isSolved` call. */
  ghost function WalkThenCall(e: Env, isSolved: IsSolvedCall): (r: Result<bool, SolveError>)
    requires Terminates(e, map[])
  {
    match WalkResult(e, map[])
    case Err(err) => Err(err)
    case Ok(keys) =>
      match isSolved(keys, FinalOverrides(e, map[]))
      case Ok(solved) => Ok(solved)
      case Err(reason) => Err(CallFailed(reason))
  }

  /** `solve`, given that the contract's list ends. */
  ghost function SolveSpec(keccak: Hasher, db: Provider, address: Address, isSolved: IsSolvedCall): (r: Result<bool, SolveError>)
    requires db.BasicRef(address) == Ok(true) ==> Terminates(WalkEnv(keccak, db, address), map[])
  {
    match db.BasicRef(address)
    case Err(_) => Err(AccountLoadFailed)
    case Ok(found) =>
      if !found then Err(AccountNotFound)
      else WalkThenCall(WalkEnv(keccak, db, address), isSolved)
  }

  /**
   * How `solve` ends, stated on the walk: it returns the verdict of `isSolved`
   * exactly when the account loads, the walk reaches a zero word, and the
   * call on the recorded keys and the flagged overlay succeeds; each error
   * names the step that went wrong.
   */
  lemma SolveOutcomes(keccak: Hasher, db: Provider, address: Address, isSolved: IsSolvedCall)
    requires db.BasicRef(address) == Ok(true) ==> Terminates(WalkEnv(keccak, db, address), map[])
    ensures SolveSpec(keccak, db, address, isSolved) == Err(AccountLoadFailed) <==> address in db.accountFaults
    ensures SolveSpec(keccak, db, address, isSolved) == Err(AccountNotFound) <==> address !in db.accountFaults && address !in db.accounts
    ensures db.BasicRef(address) == Ok(true) ==>
      var e := WalkEnv(keccak, db, address);
      && (SolveSpec(keccak, db, address, isSolved) == Err(StorageReadFailed) <==> WalkResult(e, map[]).Err?)
      && (forall solved: bool :: SolveSpec(keccak, db, address, isSolved) == Ok(solved) <==>
        WalkResult(e, map[]).Ok? && isSolved(WalkResult(e, map[]).value, FinalOverrides(e, map[])) == Ok(solved))
      && (forall reason: CallError :: SolveSpec(keccak, db, address, isSolved) == Err(CallFailed(reason)) <==>
        WalkResult(e, map[]).Ok? && isSolved(WalkResult(e, map[]).value, FinalOverrides(e, map[])) == Err(reason))
  {
  }

  /** A chain that stops at index m stops nowhere earlier: m is the walk's length. */
  lemma EndIndexUnique(e: Env, ov: map<StorageKey, U256>, m: nat)
    requires AllLive(e, ov, m) && !Live(e, ov, KeyAt(e, ov, m))
    ensures Terminates(e, ov) && EndIndex(e, ov) == m
  {
    var n := EndIndex(e, ov);
    assert !(n < m);
    assert !(m < n);
  }

  /** After the flag writes of the first n nodes, the slot of the i-th holds its word with the flag set. */
  lemma {:induction false} FlaggedHolds(e: Env, ov: map<StorageKey, U256>, n: nat, i: nat)
    requires AllLive(e, ov, n) && i < n
    ensures var sk := (e.address, SlotOf(e, KeyAt(e, ov, i)));
      sk in Flagged(e, ov, n) && Flagged(e, ov, n)[sk] == SetFlag(WordOf(e, ov, KeyAt(e, ov, i)).value)
  {
    var last := KeyAt(e, ov, n - 1);
    var lastKey := (e.address, SlotOf(e, last));
    var k := KeyAt(e, ov, i);
    var sk := (e.address, SlotOf(e, k));
    assert Flagged(e, ov, n) == Flagged(e, ov, n - 1)[lastKey := SetFlag(WordOf(e, ov, last).value)];
    if sk == lastKey {
      assert WordOf(e, ov, k) == WordOf(e, ov, last);
    } else {
      FlaggedHolds(e, ov, n - 1, i);
    }
  }

  /** A storage word that is not the slot of one of the first n nodes keeps its entry. */
  lemma {:induction false} FlaggedElsewhere(e: Env, ov: map<StorageKey, U256>, n: nat, sk: StorageKey)
    requires AllLive(e, ov, n) && !Touched(e, ov, n, sk)
    ensures SameEntry(Flagged(e, ov, n), ov, sk)
  {
    if n > 0 {
      var last := KeyAt(e, ov, n - 1);
      assert sk != (e.address, SlotOf(e, last));
      assert !Touched(e, ov, n - 1, sk);
      FlaggedElsewhere(e, ov, n - 1, sk);
    }
  }

  /** What the flag writes of the first n nodes leave in the overlay. */
  lemma FlaggedContents(e: Env, ov: map<StorageKey, U256>, n: nat)
    requires AllLive(e, ov, n)
    ensures forall i: nat :: i < n ==>
      var sk := (e.address, SlotOf(e, KeyAt(e, ov, i)));
      sk in Flagged(e, ov, n) && Flagged(e, ov, n)[sk] == SetFlag(WordOf(e, ov, KeyAt(e, ov, i)).value)
    ensures forall sk :: !Touched(e, ov, n, sk) ==> SameEntry(Flagged(e, ov, n), ov, sk)
  {
    forall i: nat | i < n
      ensures var sk := (e.address, SlotOf(e, KeyAt(e, ov, i)));
        sk in Flagged(e, ov, n) && Flagged(e, ov, n)[sk] == SetFlag(WordOf(e, ov, KeyAt(e, ov, i)).value)
    {
      FlaggedHolds(e, ov, n, i);
    }
    forall sk | !Touched(e, ov, n, sk)
      ensures SameEntry(Flagged(e, ov, n), ov, sk)
    {
      FlaggedElsewhere(e, ov, n, sk);
    }
  }

  /**
   * Reads through the flagged overlay agree with the original on everything the
   * walk looks at: whether a node is present, its next key, and its flagged word.
   */
  lemma FlaggedReadsAgree(e: Env, ov: map<StorageKey, U256>, n: nat, key: U256)
    requires FlagBlind(e) && AllLive(e, ov, n)
    ensures Live(e, Flagged(e, ov, n), key) == Live(e, ov, key)
    ensures !Live(e, ov, key) ==> WordOf(e, Flagged(e, ov, n), key) == WordOf(e, ov, key)
    ensures Live(e, ov, key) ==>
      && e.nextOf(WordOf(e, Flagged(e, ov, n), key).value) == e.nextOf(WordOf(e, ov, key).value)
      && SetFlag(WordOf(e, Flagged(e, ov, n), key).value) == SetFlag(WordOf(e, ov, key).value)
    ensures Successor(e, Flagged(e, ov, n), key) == Successor(e, ov, key)
  {
    var sk := (e.address, SlotOf(e, key));
    if Touched(e, ov, n, sk) {
      var i: nat :| i < n && sk == (e.address, SlotOf(e, KeyAt(e, ov, i)));
      FlaggedHolds(e, ov, n, i);
      assert WordOf(e, ov, key) == WordOf(e, ov, KeyAt(e, ov, i));
      var w := WordOf(e, ov, key).value;
      assert WordOf(e, Flagged(e, ov, n), key) == Ok(SetFlag(w));
      SetFlagNonzero(w);
      SetFlagIdempotent(w);
    } else {
      FlaggedElsewhere(e, ov, n, sk);
      assert WordOf(e, Flagged(e, ov, n), key) == WordOf(e, ov, key);
    }
  }

  /** One round of the loop that goes on: the node was present, and the state moves one node on. */
  lemma WalkStep(e: Env, ov: map<StorageKey, U256>, i: nat, value: U256)
    requires FlagBlind(e) && AllLive(e, ov, i)
    requires WordOf(e, Flagged(e, ov, i), KeyAt(e, ov, i)) == Ok(value) && value != 0
    ensures Live(e, ov, KeyAt(e, ov, i)) && AllLive(e, ov, i + 1)
    ensures Chain(e, ov, i + 1) == Chain(e, ov, i) + [KeyAt(e, ov, i)]
    ensures Flagged(e, ov, i)[(e.address, SlotOf(e, KeyAt(e, ov, i))) := SetFlag(value)] == Flagged(e, ov, i + 1)
    ensures e.nextOf(value) == KeyAt(e, ov, i + 1)
  {
    FlaggedReadsAgree(e, ov, i, KeyAt(e, ov, i));
    AllLiveStep(e, ov, i);
  }

  /** The round of the loop that stops: the walk has recorded exactly i nodes. */
  lemma WalkStop(e: Env, ov: map<StorageKey, U256>, i: nat)
    requires FlagBlind(e) && AllLive(e, ov, i)
    requires !Live(e, Flagged(e, ov, i), KeyAt(e, ov, i))
    ensures Terminates(e, ov) && EndIndex(e, ov) == i
    ensures WordOf(e, Flagged(e, ov, i), KeyAt(e, ov, i)) == WordOf(e, ov, KeyAt(e, ov, i))
    ensures WalkResult(e, ov) == if WordOf(e, ov, KeyAt(e, ov, i)).Err? then Err(StorageReadFailed) else Ok(Chain(e, ov, i))
    ensures FinalOverrides(e, ov) == Flagged(e, ov, i)
  {
    FlaggedReadsAgree(e, ov, i, KeyAt(e, ov, i));
    EndIndexUnique(e, ov, i);
  }

  /**
   * A list as the contract lays it out, stated on the keys alone: it starts at
   * key 0, every node is present, and each key after the first is the next key
   * of the node before it.
   */
  predicate LinkedKeys(e: Env, ov: map<StorageKey, U256>, keys: seq<U256>)
  {
    && (|keys| > 0 ==> keys[0] == START_KEY)
    && forall i :: 0 <= i < |keys| ==>
      Live(e, ov, keys[i]) && (i + 1 < |keys| ==> keys[i + 1] == e.nextOf(WordOf(e, ov, keys[i]).value))
  }

  /** The key the walk reads after recording `keys`. */
  function StopKey(e: Env, ov: map<StorageKey, U256>, keys: seq<U256>): (r: U256)
  {
    if keys == [] then START_KEY else Successor(e, ov, keys[|keys| - 1])
  }

  /** Linked keys are a live prefix of the chain, and their stop key is the chain's next key. */
  lemma {:induction false} LinkedKeysAreChain(e: Env, ov: map<StorageKey, U256>, keys: seq<U256>)
    requires LinkedKeys(e, ov, keys)
    ensures AllLive(e, ov, |keys|) && keys == Chain(e, ov, |keys|)
    ensures StopKey(e, ov, keys) == KeyAt(e, ov, |keys|)
  {
    if keys != [] {
      var n := |keys|;
      var init := keys[..n - 1];
      assert LinkedKeys(e, ov, init);
      LinkedKeysAreChain(e, ov, init);
      assert keys[n - 1] == KeyAt(e, ov, n - 1) by {
        if n > 1 {
          assert keys[n - 1] == e.nextOf(WordOf(e, ov, keys[n - 2]).value);
        }
      }
      assert keys == init + [keys[n - 1]];
    }
  }

  /** Every live prefix of the chain is a linked list. */
  lemma ChainIsLinked(e: Env, ov: map<StorageKey, U256>, n: nat)
    requires AllLive(e, ov, n)
    ensures LinkedKeys(e, ov, Chain(e, ov, n))
  {
    var keys := Chain(e, ov, n);
    forall i | 0 <= i < n
      ensures Live(e, ov, keys[i]) && (i + 1 < n ==> keys[i + 1] == e.nextOf(WordOf(e, ov, keys[i]).value))
    {
      if i + 1 < n {
        assert keys[i + 1] == KeyAt(e, ov, i + 1);
      }
    }
  }

  /**
   * What the walk returns, both ways round: it returns `keys` exactly when
   * `keys` is a linked list whose stop key reads as the zero word, and it
   * fails exactly when some linked list's stop key cannot be read.
   */
  lemma WalkResultMeaning(e: Env, ov: map<StorageKey, U256>, keys: seq<U256>)
    requires Terminates(e, ov)
    ensures WalkResult(e, ov) == Ok(keys) <==> LinkedKeys(e, ov, keys) && WordOf(e, ov, StopKey(e, ov, keys)) == Ok(0)
    ensures LinkedKeys(e, ov, keys) && WordOf(e, ov, StopKey(e, ov, keys)).Err? ==> WalkResult(e, ov) == Err(StorageReadFailed)
  {
    var n := EndIndex(e, ov);
    if WalkResult(e, ov) == Ok(keys) {
      ChainIsLinked(e, ov, n);
      LinkedKeysAreChain(e, ov, keys);
    }
    if LinkedKeys(e, ov, keys) {
      LinkedKeysAreChain(e, ov, keys);
      if !Live(e, ov, StopKey(e, ov, keys)) {
        EndIndexUnique(e, ov, |keys|);
      }
    }
  }

  /** A failed walk did reach a node it could not read, after a linked list of present nodes. */
  lemma WalkErrorMeaning(e: Env, ov: map<StorageKey, U256>)
    requires Terminates(e, ov) && WalkResult(e, ov).Err?
    ensures WalkResult(e, ov) == Err(StorageReadFailed)
    ensures LinkedKeys(e, ov, Chain(e, ov, EndIndex(e, ov)))
    ensures WordOf(e, ov, StopKey(e, ov, Chain(e, ov, EndIndex(e, ov)))).Err?
  {
    ChainIsLinked(e, ov, EndIndex(e, ov));
    LinkedKeysAreChain(e, ov, Chain(e, ov, EndIndex(e, ov)));
  }

  /** The node that ends the walk is never among the recorded keys. */
  lemma StopKeyNotRecorded(e: Env, ov: map<StorageKey, U256>, keys: seq<U256>)
    requires LinkedKeys(e, ov, keys) && !Live(e, ov, StopKey(e, ov, keys))
    ensures StopKey(e, ov, keys) !in keys
  {
  }

  /**
   * The overlay after the walk: the slot of every node it visited holds that
   * node's original word with the flag set, and every other entry is as before.
   */
  lemma FinalOverlay(e: Env, ov: map<StorageKey, U256>)
    requires Terminates(e, ov)
    ensures forall k :: k in Chain(e, ov, EndIndex(e, ov)) ==>
      var sk := (e.address, SlotOf(e, k));
      && sk in FinalOverrides(e, ov)
      && FinalOverrides(e, ov)[sk] == SetFlag(WordOf(e, ov, k).value)
      && Unlocked(FinalOverrides(e, ov)[sk])
    ensures forall sk :: (forall k :: k in Chain(e, ov, EndIndex(e, ov)) ==> sk != (e.address, SlotOf(e, k))) ==>
      SameEntry(FinalOverrides(e, ov), ov, sk)
  {
    var n := EndIndex(e, ov);
    var keys := Chain(e, ov, n);
    FlaggedContents(e, ov, n);
    forall k | k in keys
      ensures var sk := (e.address, SlotOf(e, k)); sk in FinalOverrides(e, ov) && FinalOverrides(e, ov)[sk] == SetFlag(WordOf(e, ov, k).value)
    {
      var i :| 0 <= i < n && keys[i] == k;
      assert k == KeyAt(e, ov, i);
    }
    forall sk | forall k :: k in keys ==> sk != (e.address, SlotOf(e, k))
      ensures SameEntry(FinalOverrides(e, ov), ov, sk)
    {
      assert !Touched(e, ov, n, sk);
    }
  }

  /** The flag writes leave the chain's keys where they were. */
  lemma {:induction false} FlaggedKeysAgree(e: Env, ov: map<StorageKey, U256>, n: nat, i: nat)
    requires FlagBlind(e) && AllLive(e, ov, n)
    ensures KeyAt(e, Flagged(e, ov, n), i) == KeyAt(e, ov, i)
    ensures Live(e, Flagged(e, ov, n), KeyAt(e, ov, i)) == Live(e, ov, KeyAt(e, ov, i))
  {
    if i > 0 {
      FlaggedKeysAgree(e, ov, n, i - 1);
      FlaggedReadsAgree(e, ov, n, KeyAt(e, ov, i - 1));
    }
    FlaggedReadsAgree(e, ov, n, KeyAt(e, ov, i));
  }

  /**
   * The walk's own writes do not change which keys it visits: walking again
   * over the final overlay gives the same result.
   */
  lemma RewalkSameResult(e: Env, ov: map<StorageKey, U256>)
    requires FlagBlind(e) && Terminates(e, ov)
    ensures Terminates(e, FinalOverrides(e, ov))
    ensures WalkResult(e, FinalOverrides(e, ov)) == WalkResult(e, ov)
  {
    var n := EndIndex(e, ov);
    var f := FinalOverrides(e, ov);
    forall i: nat | i <= n
      ensures KeyAt(e, f, i) == KeyAt(e, ov, i) && Live(e, f, KeyAt(e, f, i)) == Live(e, ov, KeyAt(e, ov, i))
    {
      FlaggedKeysAgree(e, ov, n, i);
    }
    EndIndexUnique(e, f, n);
    assert Chain(e, f, n) == Chain(e, ov, n);
    FlaggedReadsAgree(e, ov, n, KeyAt(e, ov, n));
  }

  /** A chain that comes back to a key it has visited repeats itself from there on. */
  lemma {:induction false} ShiftKeys(e: Env, ov: map<StorageKey, U256>, i: nat, j: nat, t: nat)
    requires KeyAt(e, ov, i) == KeyAt(e, ov, j)
    ensures KeyAt(e, ov, i + t) == KeyAt(e, ov, j + t)
  {
    if t > 0 {
      ShiftKeys(e, ov, i, j, t - 1);
    }
  }

  /** Liveness carries over from a key of the chain to the key one cycle later. */
  lemma CycleShiftLive(e: Env, ov: map<StorageKey, U256>, i: nat, j: nat, t: nat)
    requires KeyAt(e, ov, i) == KeyAt(e, ov, j) && Live(e, ov, KeyAt(e, ov, i + t))
    ensures Live(e, ov, KeyAt(e, ov, j + t))
  {
    ShiftKeys(e, ov, i, j, t);
  }

  lemma {:induction false} CycleStaysLive(e: Env, ov: map<StorageKey, U256>, i: nat, j: nat, m: nat)
    requires i < j && AllLive(e, ov, j) && KeyAt(e, ov, i) == KeyAt(e, ov, j)
    ensures Live(e, ov, KeyAt(e, ov, m))
    decreases m
  {
    if m >= j {
      CycleStaysLive(e, ov, i, j, i + (m - j));
      CycleShiftLive(e, ov, i, j, m - j);
    }
  }

  /** A list that links back to one of its own nodes never reaches a zero word. */
  lemma CycleNeverEnds(e: Env, ov: map<StorageKey, U256>, i: nat, j: nat)
    requires i < j && AllLive(e, ov, j) && KeyAt(e, ov, i) == KeyAt(e, ov, j)
    ensures !Terminates(e, ov)
  {
    forall m: nat
      ensures Live(e, ov, KeyAt(e, ov, m))
    {
      CycleStaysLive(e, ov, i, j, m);
    }
  }

  /** A first node that names itself as its next node makes a list without end. */
  lemma SelfLinkedStartNeverEnds(e: Env, ov: map<StorageKey, U256>)
    requires Live(e, ov, START_KEY) && e.nextOf(WordOf(e, ov, START_KEY).value) == START_KEY
    ensures !Terminates(e, ov)
  {
    assert KeyAt(e, ov, 1) == KeyAt(e, ov, 0);
    CycleNeverEnds(e, ov, 0, 1);
  }

  /** A walk that ends records each key once. */
  lemma WalkKeysDistinct(e: Env, ov: map<StorageKey, U256>)
    requires Terminates(e, ov)
    ensures var keys := Chain(e, ov, EndIndex(e, ov));
      forall a, b :: 0 <= a < b < |keys| ==> keys[a] != keys[b]
  {
    var n := EndIndex(e, ov);
    var keys := Chain(e, ov, n);
    forall a, b | 0 <= a < b < |keys|
      ensures keys[a] != keys[b]
    {
      if keys[a] == keys[b] {
        CycleNeverEnds(e, ov, a, b);
        assert false;
      }
    }
  }

  /**
   * `write_storage`: the word becomes a pending write of the overlay, which
   * then reads it back at that slot; the provider behind it is a constant and
   * so is never written.
   */
  method WriteStorage(cacheDb: CacheDb, address: Address, slot: U256, value: U256)
    modifies cacheDb
    ensures cacheDb.overrides == old(cacheDb.overrides)[(address, slot) := value]
    ensures cacheDb.StorageRef(address, slot) == Ok(value)
  {
    cacheDb.InsertAccountStorage(address, slot, value);
  }

  /**
   * `solve`'s loop: starting at key 0, read each node's word through the
   * overlay, stop at the first zero word, otherwise record the key, write the
   * word back with the flag set, and follow the next-key rule.
   */
  method Walk(cacheDb: CacheDb, keccak: Hasher, contractAddress: Address) returns (result: Result<seq<U256>, SolveError>)
    requires Terminates(WalkEnv(keccak, cacheDb.db, contractAddress), cacheDb.overrides)
    modifies cacheDb
    ensures result == WalkResult(WalkEnv(keccak, cacheDb.db, contractAddress), old(cacheDb.overrides))
    ensures cacheDb.overrides == FinalOverrides(WalkEnv(keccak, cacheDb.db, contractAddress), old(cacheDb.overrides))
  {
    ghost var e := WalkEnv(keccak, cacheDb.db, contractAddress);
    ghost var ov := cacheDb.overrides;
    WalkEnvFlagBlind(keccak, cacheDb.db, contractAddress);
    ghost var n: nat :| !Live(e, ov, KeyAt(e, ov, n));
    var keys: seq<U256> := [];
    var currentKey: U256 := START_KEY;
    while true
      invariant |keys| <= n
      invariant AllLive(e, ov, |keys|)
      invariant keys == Chain(e, ov, |keys|)
      invariant currentKey == KeyAt(e, ov, |keys|)
      invariant cacheDb.overrides == Flagged(e, ov, |keys|)
      decreases n - |keys|
    {
      var storageSlot := CalculateStorageSlot(keccak, currentKey, VALUE_MAP_SLOT);
      var value := cacheDb.StorageRef(contractAddress, storageSlot);
      assert value == WordOf(e, Flagged(e, ov, |keys|), KeyAt(e, ov, |keys|));
      if value.Err? || value.value == 0 {
        WalkStop(e, ov, |keys|);
        if value.Err? {
          return Err(StorageReadFailed);
        }
        return Ok(keys);
      }
      WalkStep(e, ov, |keys|, value.value);
      keys := keys + [currentKey];
      var unlocked := SetFlag(value.value);
      WriteStorage(cacheDb, contractAddress, storageSlot, unlocked);
      // Decode the first and second values and follow the parity rule.
      currentKey := NextKey(value.value);
    }
  }

  /**
   * `solve`: check that the contract's account exists, walk the list in a
   * fresh overlay, and call `isSolved` with the keys against that overlay.
   */
  method Solve(keccak: Hasher, db: Provider, contractAddress: Address, isSolved: IsSolvedCall)
    returns (result: Result<bool, SolveError>)
    requires db.BasicRef(contractAddress) == Ok(true) ==> Terminates(WalkEnv(keccak, db, contractAddress), map[])
    ensures result == SolveSpec(keccak, db, contractAddress, isSolved)
  {
    var cacheDb := new CacheDb(db);
    var account := cacheDb.BasicRef(contractAddress);
    if account.Err? {
      return Err(AccountLoadFailed);
    }
    if !account.value {
      return Err(AccountNotFound);
    }
    var walked := Walk(cacheDb, keccak, contractAddress);
    if walked.Err? {
      return Err(walked.error);
    }
    var called := isSolved(walked.value, cacheDb.overrides);
    if called.Err? {
      return Err(CallFailed(called.error));
    }
    return Ok(called.value);
  }

  /** One link of the chain: the key after a node is the next key of the node's word. */
  lemma KeyAtStep(e: Env, ov: map<StorageKey, U256>, i: nat, w: U256)
    requires WordOf(e, ov, KeyAt(e, ov, i)) == Ok(w)
    ensures KeyAt(e, ov, i + 1) == e.nextOf(w)
  {
  }

  /**
   * A contract holding a three-node list in its value map, at the slots
   * `slotOf` gives: the words `a`, `b` and `c` at keys 0, 4 and 7.
   */
  function ThreeNodeEnv(slotOf: U256 -> U256, address: Address, a: U256, b: U256, c: U256): (r: Env)
  {
    Env(slotOf, NextKey, Provider({address}, {}, map[(address, slotOf(0)) := a, (address, slotOf(4)) := b, (address, slotOf(7)) := c], {}), address)
  }

  /** The slots of keys 0, 4, 7 and 10 are different (no hash collision among them). */
  predicate DistinctSlots(slotOf: U256 -> U256)
  {
    && slotOf(0) != slotOf(4) && slotOf(0) != slotOf(7) && slotOf(0) != slotOf(10)
    && slotOf(4) != slotOf(7) && slotOf(4) != slotOf(10) && slotOf(7) != slotOf(10)
  }

  /**
   * The list 0 -> 4 -> 7 -> (end): the node at key 0 has the even first value
   * 4, the node at key 4 the odd first value 7 and second value 7, and the
   * node at key 7 the even first value 10, a key where nothing is stored. The
   * other fields of the three words (flags, unused values, padding) are free.
   */
  predicate ThreeNodeWords(a: U256, b: U256, c: U256)
  {
    FirstValue(a) == 4 && FirstValue(b) == 7 && SecondValue(b) == 7 && FirstValue(c) == 10
  }

  /** The packed records with exactly these fields and every flag clear are such words. */
  lemma ThreeNodeWordsExist()
    ensures ThreeNodeWords(Pack(4, 0, false, 0), Pack(7, 7, false, 0), Pack(10, 0, false, 0))
  {
    UnpackValues(4, 0, false, 0);
    UnpackValues(7, 7, false, 0);
    UnpackValues(10, 0, false, 0);
  }

  /** The three words are nodes, linked 0 -> 4 -> 7 -> 10. */
  lemma ThreeNodeNextKeys(a: U256, b: U256, c: U256)
    requires ThreeNodeWords(a, b, c)
    ensures a != 0 && b != 0 && c != 0
    ensures NextKey(a) == 4 && NextKey(b) == 7 && NextKey(c) == 10
  {
  }

  /** What the provider holds for keys 0, 4, 7 and 10. */
  lemma ThreeNodeReads(slotOf: U256 -> U256, address: Address, a: U256, b: U256, c: U256)
    requires DistinctSlots(slotOf)
    ensures WordOf(ThreeNodeEnv(slotOf, address, a, b, c), map[], 0) == Ok(a)
    ensures WordOf(ThreeNodeEnv(slotOf, address, a, b, c), map[], 4) == Ok(b)
    ensures WordOf(ThreeNodeEnv(slotOf, address, a, b, c), map[], 7) == Ok(c)
    ensures WordOf(ThreeNodeEnv(slotOf, address, a, b, c), map[], 10) == Ok(0)
  {
  }

  /** The keys 0, 4 and 7 form a linked list whose stop key 10 reads as the zero word. */
  lemma ThreeNodeLinked(slotOf: U256 -> U256, address: Address, a: U256, b: U256, c: U256)
    requires DistinctSlots(slotOf) && ThreeNodeWords(a, b, c)
    ensures LinkedKeys(ThreeNodeEnv(slotOf, address, a, b, c), map[], [0, 4, 7])
    ensures StopKey(ThreeNodeEnv(slotOf, address, a, b, c), map[], [0, 4, 7]) == 10
    ensures WordOf(ThreeNodeEnv(slotOf, address, a, b, c), map[], 10) == Ok(0)
  {
    ThreeNodeNextKeys(a, b, c);
    ThreeNodeReads(slotOf, address, a, b, c);
  }

  /** Walking the three-node list records keys 0, 4 and 7, in that order. */
  lemma ThreeNodeWalk(slotOf: U256 -> U256, address: Address, a: U256, b: U256, c: U256)
    requires DistinctSlots(slotOf) && ThreeNodeWords(a, b, c)
    ensures Terminates(ThreeNodeEnv(slotOf, address, a, b, c), map[])
    ensures EndIndex(ThreeNodeEnv(slotOf, address, a, b, c), map[]) == 3
    ensures WalkResult(ThreeNodeEnv(slotOf, address, a, b, c), map[]) == Ok([0, 4, 7])
  {
    var e := ThreeNodeEnv(slotOf, address, a, b, c);
    var ov: map<StorageKey, U256> := map[];
    var keys: seq<U256> := [0, 4, 7];
    ThreeNodeLinked(slotOf, address, a, b, c);
    LinkedKeysAreChain(e, ov, keys);
    EndIndexUnique(e, ov, 3);
    WalkResultMeaning(e, ov, keys);
  }

  /** The first two flag writes of the walk over the three-node list. */
  lemma ThreeNodeFirstFlags(slotOf: U256 -> U256, address: Address, a: U256, b: U256, c: U256)
    requires DistinctSlots(slotOf) && ThreeNodeWords(a, b, c)
    ensures AllLive(ThreeNodeEnv(slotOf, address, a, b, c), map[], 3)
    ensures KeyAt(ThreeNodeEnv(slotOf, address, a, b, c), map[], 2) == 7
    ensures Flagged(ThreeNodeEnv(slotOf, address, a, b, c), map[], 2) ==
      map[(address, slotOf(0)) := SetFlag(a), (address, slotOf(4)) := SetFlag(b)]
  {
    var e := ThreeNodeEnv(slotOf, address, a, b, c);
    var ov: map<StorageKey, U256> := map[];
    ThreeNodeLinked(slotOf, address, a, b, c);
    LinkedKeysAreChain(e, ov, [0, 4, 7]);
    assert KeyAt(e, ov, 0) == 0 && KeyAt(e, ov, 1) == 4 && KeyAt(e, ov, 2) == 7;
    ThreeNodeReads(slotOf, address, a, b, c);
    assert Flagged(e, ov, 1) == map[(address, slotOf(0)) := SetFlag(a)];
  }

  /** After the walk, exactly the three nodes' slots are written, each with its flag set. */
  lemma ThreeNodeOverlay(slotOf: U256 -> U256, address: Address, a: U256, b: U256, c: U256)
    requires DistinctSlots(slotOf) && ThreeNodeWords(a, b, c)
    ensures Terminates(ThreeNodeEnv(slotOf, address, a, b, c), map[])
    ensures FinalOverrides(ThreeNodeEnv(slotOf, address, a, b, c), map[]) ==
      map[(address, slotOf(0)) := SetFlag(a), (address, slotOf(4)) := SetFlag(b), (address, slotOf(7)) := SetFlag(c)]
  {
    ThreeNodeWalk(slotOf, address, a, b, c);
    ThreeNodeFirstFlags(slotOf, address, a, b, c);
    var e := ThreeNodeEnv(slotOf, address, a, b, c);
    var ov: map<StorageKey, U256> := map[];
    ThreeNodeReads(slotOf, address, a, b, c);
    assert Flagged(e, ov, 3) == Flagged(e, ov, 2)[(address, slotOf(7)) := SetFlag(c)];
  }

  /** The walk and call on the three-node list hand keys 0, 4 and 7 and the flagged overlay to `isSolved`. */
  lemma ThreeNodeSolve(slotOf: U256 -> U256, address: Address, a: U256, b: U256, c: U256, isSolved: IsSolvedCall)
    requires DistinctSlots(slotOf) && ThreeNodeWords(a, b, c)
    ensures Terminates(ThreeNodeEnv(slotOf, address, a, b, c), map[])
    ensures var f := FinalOverrides(ThreeNodeEnv(slotOf, address, a, b, c), map[]);
      WalkThenCall(ThreeNodeEnv(slotOf, address, a, b, c), isSolved) ==
        match isSolved([0, 4, 7], f)
        case Ok(solved) => Ok(solved)
        case Err(reason) => Err(CallFailed(reason))
  {
    ThreeNodeWalk(slotOf, address, a, b, c);
  }

  /** The three-node list with the provider unable to read the node at key 4. */
  function ThreeNodeFaultEnv(slotOf: U256 -> U256, address: Address, a: U256, b: U256, c: U256): (r: Env)
  {
    var e := ThreeNodeEnv(slotOf, address, a, b, c);
    e.(db := e.db.(faults := {(address, slotOf(4))}))
  }

  /** With the second node unreadable, the walk over the three-node list stops after one node. */
  lemma ThreeNodeFaultEnd(slotOf: U256 -> U256, address: Address, a: U256, b: U256, c: U256)
    requires DistinctSlots(slotOf) && ThreeNodeWords(a, b, c)
    ensures AllLive(ThreeNodeFaultEnv(slotOf, address, a, b, c), map[], 1)
    ensures !Live(ThreeNodeFaultEnv(slotOf, address, a, b, c), map[], KeyAt(ThreeNodeFaultEnv(slotOf, address, a, b, c), map[], 1))
    ensures WordOf(ThreeNodeFaultEnv(slotOf, address, a, b, c), map[], KeyAt(ThreeNodeFaultEnv(slotOf, address, a, b, c), map[], 1)).Err?
  {
    var e := ThreeNodeFaultEnv(slotOf, address, a, b, c);
    var ov: map<StorageKey, U256> := map[];
    ThreeNodeNextKeys(a, b, c);
    assert WordOf(e, ov, 0) == Ok(a);
    KeyAtStep(e, ov, 0, a);
    assert WordOf(e, ov, 4) == Err(ProviderFault);
  }

  /** If the provider cannot read the second node, the walk, and so the call, fails. */
  lemma ThreeNodeFault(slotOf: U256 -> U256, address: Address, a: U256, b: U256, c: U256, isSolved: IsSolvedCall)
    requires DistinctSlots(slotOf) && ThreeNodeWords(a, b, c)
    ensures Terminates(ThreeNodeFaultEnv(slotOf, address, a, b, c), map[])
    ensures WalkResult(ThreeNodeFaultEnv(slotOf, address, a, b, c), map[]) == Err(StorageReadFailed)
    ensures WalkThenCall(ThreeNodeFaultEnv(slotOf, address, a, b, c), isSolved) == Err(StorageReadFailed)
  {
    ThreeNodeFaultEnd(slotOf, address, a, b, c);
    EndIndexUnique(ThreeNodeFaultEnv(slotOf, address, a, b, c), map[], 1);
  }
}
