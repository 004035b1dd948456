/** The 16-bit items of the program database's views: element id in bits 0-13, selection mark in bit 14,
    active flag in bit 15, changed only through the single-bit macros. */
module ViewItems {
  import opened Words
  import opened BitMacros

  /** `item_type_t`. */
  type Item = x: nat | x < 0x1_0000

  const ACTIVE_BIT: nat := 15
  const MARK_SHIFT: nat := 14
  const MAX_MARKS: nat := 3
  const NULL_ITEM: Item := 0xFFFF
  const NO_ID: nat := 0x3FFF

  function ItemId(x: Item): (id: nat)
    ensures id <= NO_ID
  {
    And(x, 0x3FFF)
  }

  predicate IsActive(x: Item) {
    And(x, Shl(32, 1, ACTIVE_BIT)) != 0
  }

  lemma ItemWidth()
    ensures Pow2(16) == 0x1_0000 && Pow2(14) == 0x4000
  {
    assert Pow2(8) == 0x100;
    assert Pow2(12) == 0x1000;
  }

  function SetItemBit(x: Item, bit: nat): (r: Item)
    requires bit < 32
  {
    ItemWidth();
    SetBit(16, x, bit)
  }

  function ClearItemBit(x: Item, bit: nat): (r: Item)
    requires bit < 32
  {
    ItemWidth();
    ClrBit(16, x, bit)
  }

  lemma ActiveIsBit(x: Item)
    ensures IsActive(x) <==> Bit(x, ACTIVE_BIT)
  {
    var m := And(x, Shl(32, 1, ACTIVE_BIT));
    BitAnd(x, Shl(32, 1, ACTIVE_BIT), ACTIVE_BIT);
    BitOne(ACTIVE_BIT, ACTIVE_BIT);
    BitZero(ACTIVE_BIT);
    if !Bit(x, ACTIVE_BIT) {
      ItemWidth();
      forall i: nat | i < 16
        ensures Bit(m, i) <==> Bit(0, i)
      {
        BitAnd(x, Shl(32, 1, ACTIVE_BIT), i);
        BitOne(ACTIVE_BIT, i);
        BitZero(i);
      }
      Extensional(m, 0, 16);
    }
  }

  lemma SameId(x: Item, y: Item)
    requires forall i: nat :: i < 14 ==> (Bit(x, i) <==> Bit(y, i))
    ensures ItemId(x) == ItemId(y)
  {
    ItemWidth();
    forall i: nat | i < 14
      ensures Bit(ItemId(x), i) <==> Bit(ItemId(y), i)
    {
      BitAnd(x, 0x3FFF, i);
      BitAnd(y, 0x3FFF, i);
    }
    Extensional(ItemId(x), ItemId(y), 14);
  }

  /** Writing a bit above the id keeps the id; bit 15 is the active flag, and a bit beyond the item is lost. */
  lemma HighBitEffect(x: Item, bit: nat, on: bool)
    requires 14 <= bit < 32
    ensures var r := if on then SetItemBit(x, bit) else ClearItemBit(x, bit);
            && ItemId(r) == ItemId(x)
            && (IsActive(r) <==> if bit == ACTIVE_BIT then on else IsActive(x))
            && (bit >= 16 ==> r == x)
            && (bit < 16 ==> (Bit(r, bit) <==> on))
  {
    ItemWidth();
    var r := if on then SetItemBit(x, bit) else ClearItemBit(x, bit);
    forall i: nat | i < 16
      ensures Bit(r, i) <==> if i == bit then on else Bit(x, i)
    {
      SetBitDigit(16, x, bit, i);
      ClrBitDigit(16, x, bit, i);
    }
    SameId(r, x);
    ActiveIsBit(r);
    ActiveIsBit(x);
    if bit >= 16 {
      Extensional(r, x, 16);
    }
  }

  lemma IdIsRemainder(x: Item)
    ensures ItemId(x) == x % 0x4000
  {
    ItemWidth();
    AndOnes(x, 14);
  }

  lemma NullRemainder(x: Item)
    requires x == NULL_ITEM
    ensures x % 0x4000 == NO_ID
  {
  }

  lemma ReservedId(x: Item)
    requires x % 0x4000 == NO_ID
    ensures ItemId(x) == NO_ID
  {
    IdIsRemainder(x);
  }

  /** The empty item carries the id that no element may have. */
  lemma NullHasNoId(x: Item)
    requires x == NULL_ITEM
    ensures ItemId(x) == NO_ID
  {
    NullRemainder(x);
    ReservedId(x);
  }

  /** The empty item has every bit set, the active flag included. */
  lemma NullBits(x: Item, i: nat)
    requires x == NULL_ITEM && i < 16
    ensures Bit(x, i)
  {
    ItemWidth();
    BitOnes(16, i);
  }

  lemma NullIsActive(x: Item)
    requires x == NULL_ITEM
    ensures IsActive(x)
  {
    NullBits(x, ACTIVE_BIT);
    ActiveIsBit(x);
  }

  lemma SetDigits(x: Item, bit: nat, i: nat)
    requires bit < 16 && i < 16 && !Bit(x, bit)
    ensures Bit(SetItemBit(x, bit), i) <==> Bit(Or(x, Pow2(bit)), i)
  {
    ItemWidth();
    SetBitDigit(16, x, bit, i);
    BitOr(x, Pow2(bit), i);
    BitPow2(bit, i);
  }

  lemma SetClearBit(x: Item, bit: nat)
    requires bit < 16 && !Bit(x, bit)
    ensures SetItemBit(x, bit) == x + Pow2(bit)
  {
    ItemWidth();
    Pow2Strict(bit, 16);
    forall i: nat | i < 16
      ensures Bit(And(x, Pow2(bit)), i) <==> Bit(0, i)
      ensures Bit(SetItemBit(x, bit), i) <==> Bit(Or(x, Pow2(bit)), i)
    {
      BitAnd(x, Pow2(bit), i);
      BitPow2(bit, i);
      BitZero(i);
      SetDigits(x, bit, i);
    }
    Extensional(And(x, Pow2(bit)), 0, 16);
    OrIsAdd(x, Pow2(bit));
    OrBound(x, Pow2(bit), 16);
    Extensional(SetItemBit(x, bit), Or(x, Pow2(bit)), 16);
  }

  lemma SetSetBit(x: Item, bit: nat)
    requires bit < 16 && Bit(x, bit)
    ensures SetItemBit(x, bit) == x
  {
    ItemWidth();
    forall i: nat | i < 16
      ensures Bit(SetItemBit(x, bit), i) <==> Bit(x, i)
    {
      SetBitDigit(16, x, bit, i);
    }
    Extensional(SetItemBit(x, bit), x, 16);
  }

  lemma LackingBit(x: Item, bit: nat)
    requires bit < 16
    ensures x == NULL_ITEM - Pow2(bit) ==> !Bit(x, bit)
  {
    ItemWidth();
    Pow2Strict(bit, 16);
    BitNot(16, Pow2(bit), bit);
    BitPow2(bit, bit);
  }

  /** Setting a bit makes the empty item of the one item that lacks just this bit, and of no other. */
  lemma NullBySettingIff(x: Item, bit: nat)
    requires bit < 16
    ensures SetItemBit(x, bit) == NULL_ITEM <==> x == NULL_ITEM || x == NULL_ITEM - Pow2(bit)
  {
    LackingBit(x, bit);
    if Bit(x, bit) {
      SetSetBit(x, bit);
    } else {
      SetClearBit(x, bit);
      if x == NULL_ITEM {
        NullBits(x, bit);
      }
    }
  }

  lemma ClearedNotNull(x: Item, bit: nat)
    requires 14 <= bit < 16
    ensures ClearItemBit(x, bit) != NULL_ITEM
  {
    HighBitEffect(x, bit, false);
    if ClearItemBit(x, bit) == NULL_ITEM {
      NullBits(ClearItemBit(x, bit), bit);
    }
  }
}
