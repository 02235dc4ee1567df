/**
 * The packed `Values` record that one linked-list node occupies in a storage
 * word. Solidity aligns the first member at the low-order end:
 *   bits 0..63     first value (a u64)
 *   bits 64..223   second value (160 bits)
 *   bit  224       the unlocked flag (low bit of the bool's byte)
 *   bits 225..255  the rest of that byte and unused padding
 * The solver decodes the two values with masks and shifts, and sets the flag
 * with an `|`, leaving every other bit as it was.
 */
module PackedRecord {
  import opened Bits

  const FLAG_BIT: nat := 224


  /** `to::<u64>()`: it panics unless the value fits, so a caller must show that it does. */
  function ToU64(x: nat): (r: U64)
    requires x < TWO_64
  {
    x
  }

  /** `(U256::from(1) << 160) - U256::from(1)`, the mask of the second value. */
  function SecondMask(): (m: U256)
    ensures m == TWO_160 - 1
  {
    Pow2Of160();
    ShlNoWrap(1, 160);
    Shl(1, 160) - 1
  }

  /** `U256::from(1) << 224`, the flag's bit. */
  function FlagMask(): (m: U256)
    ensures m == TWO_224 && m == Pow2(FLAG_BIT)
  {
    Pow2Of224();
    ShlNoWrap(1, FLAG_BIT);
    Shl(1, FLAG_BIT)
  }

  /** `first_value = (value & u64::MAX).to::<u64>()`: bits 0..63, and the narrowing never fails. */
  function FirstValue(w: U256): (r: U64)
    ensures r == w % TWO_64
  {
    Pow2Constants();
    AndLowMask(w, 64);
    ToU64(And(w, U64_MAX))
  }

  /** `second_value = (value >> 64) & ((1 << 160) - 1)`: bits 64..223. */
  function SecondValue(w: U256): (r: U256)
    ensures r == (w / TWO_64) % TWO_160
    ensures r < TWO_160
  {
    Pow2Constants();
    AndLowMask(Shr(w, 64), 160);
    And(Shr(w, 64), SecondMask())
  }

  /** Whether bit 224, the unlocked flag, is set. */
  predicate Unlocked(w: U256)
  {
    Bit(w, FLAG_BIT)
  }

  /** `value | (U256::from(1) << 224)`: bit 224 set, every other bit kept. */
  function SetFlag(w: U256): (r: U256)
    ensures Unlocked(r)
    ensures forall j: nat :: j != FLAG_BIT ==> Bit(r, j) == Bit(w, j)
    ensures r == if Unlocked(w) then w else w + TWO_224
  {
    OrFlag(w);
    Or(w, FlagMask())
  }

  lemma OrFlag(w: U256)
    ensures Or(w, Pow2(FLAG_BIT)) == if Bit(w, FLAG_BIT) then w else w + TWO_224
    ensures Or(w, Pow2(FLAG_BIT)) < TWO_256
    ensures Bit(Or(w, Pow2(FLAG_BIT)), FLAG_BIT)
    ensures forall j: nat :: j != FLAG_BIT ==> Bit(Or(w, Pow2(FLAG_BIT)), j) == Bit(w, j)
  {
    Pow2Constants();
    OrSingleBit(w, FLAG_BIT);
    if !Bit(w, FLAG_BIT) {
      AddPow2Below(w, FLAG_BIT, 256);
      forall j: nat
        ensures Bit(w + Pow2(FLAG_BIT), j) == (j == FLAG_BIT || Bit(w, j))
      {
        AddPow2Bits(w, FLAG_BIT, j);
      }
    }
  }

  /**
   * The key of the next node: the first value when it is even, else the second
   * value. Either way it is one of the two decoded values, so it is below 2^160.
   */
  function NextKey(w: U256): (r: U256)
    ensures r == FirstValue(w) || r == SecondValue(w)
    ensures r < TWO_160
  {
    var first := FirstValue(w);
    if first % 2 == 0 then first else SecondValue(w)
  }

  /** The word that holds a record with the given fields; `high` is bits 225..255. */
  function Pack(first: U64, second: nat, unlocked: bool, high: nat): (r: U256)
    requires second < TWO_160 && high < TWO_31
  {
    first + second * TWO_64 + (if unlocked then TWO_224 else 0) + high * TWO_225
  }

  /** The two values sit below bit 224 of a packed record. */
  lemma UnpackValues(first: U64, second: nat, unlocked: bool, high: nat)
    requires second < TWO_160 && high < TWO_31
    ensures FirstValue(Pack(first, second, unlocked, high)) == first
    ensures SecondValue(Pack(first, second, unlocked, high)) == second
  {
    var w := Pack(first, second, unlocked, high);
    var b := if unlocked then 1 else 0;
    var above := second + TWO_160 * (b + 2 * high);
    DivModUnique(w, TWO_64, above, first);
    DivModUnique(above, TWO_160, b + 2 * high, second);
  }

  /** The flag and the bits above it sit from bit 224 on. */
  lemma UnpackFlag(first: U64, second: nat, unlocked: bool, high: nat)
    requires second < TWO_160 && high < TWO_31
    ensures Unlocked(Pack(first, second, unlocked, high)) == unlocked
    ensures Pack(first, second, unlocked, high) / TWO_225 == high
  {
    var w := Pack(first, second, unlocked, high);
    var b := if unlocked then 1 else 0;
    DivModUnique(w, TWO_224, b + 2 * high, first + second * TWO_64);
    DivModUnique(w, TWO_225, high, first + second * TWO_64 + b * TWO_224);
    Pow2Constants();
    BitIsDivMod(w, FLAG_BIT);
  }

  /** Decoding a packed record gives back each of its fields. */
  lemma UnpackPack(first: U64, second: nat, unlocked: bool, high: nat)
    requires second < TWO_160 && high < TWO_31
    ensures FirstValue(Pack(first, second, unlocked, high)) == first
    ensures SecondValue(Pack(first, second, unlocked, high)) == second
    ensures Unlocked(Pack(first, second, unlocked, high)) == unlocked
    ensures Pack(first, second, unlocked, high) / TWO_225 == high
  {
    UnpackValues(first, second, unlocked, high);
    UnpackFlag(first, second, unlocked, high);
  }

  /** Every storage word is the packed record of its own fields. */
  lemma PackFields(w: U256)
    ensures w / TWO_225 < TWO_31
    ensures w == Pack(FirstValue(w), SecondValue(w), Unlocked(w), w / TWO_225)
  {
    var q1 := w / TWO_64;
    var q2 := q1 / TWO_160;
    DivDiv(w, TWO_64, TWO_160);
    DivDiv(w, TWO_224, 2);
    Pow2Constants();
    BitIsDivMod(w, FLAG_BIT);
    assert w == FirstValue(w) + TWO_64 * q1;
    assert q1 == SecondValue(w) + TWO_160 * q2;
    assert q2 == q2 % 2 + 2 * (w / TWO_225);
  }

  /** The all-ones word decodes to the largest value of each field, with the flag set. */
  lemma DecodeAllOnes(w: U256)
    requires w == TWO_256 - 1
    ensures FirstValue(w) == U64_MAX && SecondValue(w) == TWO_160 - 1 && Unlocked(w)
  {
    Pow2Constants();
    BitIsDivMod(w, FLAG_BIT);
    DivModUnique(w, TWO_64, TWO_192 - 1, TWO_64 - 1);
    DivModUnique(TWO_192 - 1, TWO_160, TWO_32 - 1, TWO_160 - 1);
    DivModUnique(w, TWO_224, TWO_32 - 1, TWO_224 - 1);
  }

  /** Setting the flag changes the flag field of the record and nothing else. */
  lemma SetFlagIsPackWithFlag(w: U256)
    ensures w / TWO_225 < TWO_31
    ensures SetFlag(w) == Pack(FirstValue(w), SecondValue(w), true, w / TWO_225)
  {
    PackFields(w);
  }

  /** Decoding ignores the flag: both values read the same before and after it is set. */
  lemma SetFlagKeepsValues(w: U256)
    ensures FirstValue(SetFlag(w)) == FirstValue(w)
    ensures SecondValue(SetFlag(w)) == SecondValue(w)
    ensures SetFlag(w) / TWO_225 == w / TWO_225
  {
    SetFlagIsPackWithFlag(w);
    UnpackPack(FirstValue(w), SecondValue(w), true, w / TWO_225);
  }

  lemma SetFlagIdempotent(w: U256)
    ensures SetFlag(SetFlag(w)) == SetFlag(w)
  {
  }

  /** A flagged word is never the zero word that ends the list. */
  lemma SetFlagNonzero(w: U256)
    ensures SetFlag(w) != 0
  {
    NoBitsOfZero(FLAG_BIT);
  }

  /** The next-key rule stated on the record's fields. */
  lemma NextKeyOfPack(first: U64, second: nat, unlocked: bool, high: nat)
    requires second < TWO_160 && high < TWO_31
    ensures NextKey(Pack(first, second, unlocked, high)) == if first % 2 == 0 then first else second
  {
    UnpackPack(first, second, unlocked, high);
  }

  /** The flag plays no part in choosing the next key. */
  lemma NextKeyIgnoresFlag(w: U256)
    ensures NextKey(SetFlag(w)) == NextKey(w)
  {
    SetFlagKeepsValues(w);
  }
}
