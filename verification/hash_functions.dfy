/** The three bucket-index functions the benchmark compares.  Each maps a
    key and the table size to `key'` C++-`%` `size` for some mixed key
    `key'`, so each is a bucket index exactly when its C++ remainder is not
    negative. */
module HashFunctions {
  import opened CppInt

  /** Which of the three hash functions a table is bound to. */
  datatype HashKind =
    | Modulo          // hash1: key % size
    | DivTenModulo    // hash2: (key / 10) % size
    | XorShiftModulo  // hash3: (key ^ (key >> 4)) % size

  /** `hash1`: the key's C++ remainder modulo the table size. */
  function Hash1(key: Int32, size: int): (h: int)
    requires 0 < size
    ensures 0 <= key ==> 0 <= h < size
    ensures key < 0 ==> -size < h <= 0
  {
    Rem(key, size)
  }

  /** `hash2`: the key truncated to a tenth, then reduced like `hash1`.  Keys
      above -10 all truncate to a non-negative tenth. */
  function Hash2(key: Int32, size: int): (h: int)
    requires 0 < size
    ensures -10 < key ==> 0 <= h < size
    ensures key < 0 ==> -size < h <= 0
  {
    Rem(Quot(key, 10), size)
  }

  /** `hash3`: the key XORed with its own arithmetic shift right by four,
      reduced like `hash1`.  A key and its shift share their sign, so the
      XOR is never negative and the index is in range for EVERY key. */
  function Hash3(key: Int32, size: int): (h: int)
    requires 0 < size
    ensures 0 <= h < size
  {
    Rem(Xor(key, ShiftRight(key, 4)), size)
  }

  /** The hash function selected by `kind`. */
  function Hash(kind: HashKind, key: Int32, size: int): (h: int)
    requires 0 < size
    ensures 0 <= key ==> 0 <= h < size
    ensures kind == XorShiftModulo ==> 0 <= h < size
  {
    match kind
    case Modulo => Hash1(key, size)
    case DivTenModulo => Hash2(key, size)
    case XorShiftModulo => Hash3(key, size)
  }

  /** The mixing step of `hash3` stays inside the C++ `int` range, so the
      unbounded model computes what 32-bit hardware computes. */
  lemma MixedKeyIsInt32(key: Int32)
    ensures INT_MIN <= Xor(key, ShiftRight(key, 4)) <= INT_MAX
  {
    var shifted := ShiftRight(key, 4);
    assert INT_MIN <= shifted <= INT_MAX by {
      if key >= 0 {
        QuotRemNonNegative(key, Pow2(4));
      } else {
        assert Pow2(4) == 16;
        assert key == 16 * (key / 16) + key % 16;
      }
    }
    XorInt32(key, shifted);
  }

  /** `hash1` and `hash2` do not normalise negative remainders: on a table of
      at least two buckets, key -1 under `hash1` and key -10 under `hash2`
      produce index -1, outside the bucket array. */
  lemma {:induction false} NegativeKeysEscape(size: int)
    requires 2 <= size
    ensures Hash(Modulo, -1, size) == -1
    ensures Hash(DivTenModulo, -10, size) == -1
  {
    DivModUnique(1, size, 0, 1);
    assert Quot(-1, size) == 0;
    assert Rem(-1, size) == -1;
    assert Quot(-10, 10) == -1;
  }

  /** Small keys hash to themselves under `hash1`: keys below the table size
      occupy distinct buckets. */
  lemma {:induction false} SmallKeysHashToThemselves(key: Int32, size: int)
    requires 0 <= key < size
    ensures Hash(Modulo, key, size) == key
  {
    QuotRemNonNegative(key, size);
    DivModUnique(key, size, 0, key);
  }

  /** Every multiple of the table size hashes to bucket 0 under `hash1`. */
  lemma {:induction false} MultiplesHashToZero(i: int, size: int)
    requires 0 <= i && 0 < size && i * size <= INT_MAX
    ensures Hash(Modulo, i * size, size) == 0
  {
    assert 0 <= i * size by {
      if i > 0 {
        MulAtLeast(size, i);
      }
    }
    RemOfMultiple(i, size);
  }
}
