/** Index arithmetic of the fixed-size rings. */
module Ring {
  /** The slot k places behind slot h, cyclically. */
  function Slot(size: nat, h: nat, k: nat): (i: nat)
    requires h < size && k <= size
    ensures i < size
  {
    if h + k < size then h + k else h + k - size
  }

  /** The index behind i. */
  function Next(size: nat, i: nat): (r: nat)
    requires i < size
    ensures r == Slot(size, i, 1)
  {
    if i + 1 < size then
      (i + 1) % size
    else
      assert i + 1 == size && size % size == 0;
      (i + 1) % size
  }
}
