/** Pages of 4 KiB and rounding up to them (`klib::align_up<usize, 0x1000>`). */
module Paging {
  const PAGE: nat := 0x1000

  function AlignUp(i: nat): (r: nat)
    ensures i <= r < i + PAGE && r % PAGE == 0
  {
    if i % PAGE != 0 then (i / PAGE + 1) * PAGE else i
  }
}
