/**
 * The buffer-growth policy shared by util/ArrayList.java and
 * util/IntArrayList.java, with the increment factor at its default 2.0:
 * grow by `capacityIncrement` slots when that is positive, otherwise
 * to twice the capacity (an empty buffer counting as one slot), plus one
 * when growing for a single `add`.
 */
module Capacity {
  /** `_increasedCapacity()`: the capacity `_grow` moves to; always larger than the current one. */
  function Increased(length: nat, increment: int): (c: nat)
    ensures c > length
    ensures increment > 0 ==> c == length + increment
    ensures increment <= 0 ==> c >= 2 * length + 1
  {
    if increment <= 0 then 2 * (if length == 0 then 1 else length) + 1
    else length + increment
  }

  /** `_increasedCapacity(min)`: an enlarged capacity that is at least min. */
  function IncreasedAtLeast(length: nat, increment: int, min: int): (c: int)
    ensures c >= min && c >= length
    ensures increment > 0 ==> c >= length + increment
  {
    var grown := if increment <= 0 then 2 * (if length == 0 then 1 else length) else length + increment;
    if min >= grown then min else grown
  }

  /**
   * The capacity after `ensureCapacity(min)`: unchanged when it already
   * holds min, otherwise the larger of min and `_increasedCapacity()`.
   */
  function Ensured(length: nat, increment: int, min: int): (c: nat)
    ensures c >= length && c >= min
    ensures length >= min ==> c == length
    ensures length < min ==> c > length
  {
    if length >= min then length
    else if min >= Increased(length, increment) then min
    else Increased(length, increment)
  }
}
