/** The size table and the doubling search of src/sgc_allocator.c, with the 32-bit `int`
    that the search counts in. */
module SizeClasses {
  datatype Option<+T> = None | Some(value: T)

  const SIZE_COUNT: nat := 29     // SGC_SIZE_INDEX_COUNT
  const SMALL_COUNT: nat := 9     // SGC_MAX_MEMHEAP_SIZE_INDEX
  const INT_MAX: int := 0x7fff_ffff
  const LARGEST: int := 0x4000_0000

  const MEM_SIZES: seq<nat> := [
    4, 8, 16, 32, 64, 128, 256, 512, 1024, 2048, 4096, 8192, 16384, 32768, 65536,
    131072, 262144, 524288, 1048576, 2097152, 4194304, 8388608, 16777216,
    33554432, 67108864, 134217728, 268435456, 536870912, 1073741824
  ]

  /** Each class holds twice as much as the one before it. */
  lemma Doubling(i: nat)
    requires i + 1 < SIZE_COUNT
    ensures MEM_SIZES[i + 1] == 2 * MEM_SIZES[i]
  {
  }

  lemma {:induction false} Increasing(i: nat, j: nat)
    requires i < j < SIZE_COUNT
    ensures MEM_SIZES[i] < MEM_SIZES[j] <= LARGEST
    decreases SIZE_COUNT - i
  {
    Doubling(i);
    if i + 1 < j {
      Increasing(i + 1, j);
    } else if j + 1 < SIZE_COUNT {
      Increasing(j, j + 1);
    }
  }

  /** `i` is the least class whose blocks hold `n` bytes. */
  ghost predicate IsClassOf(n: int, i: nat) {
    i < SIZE_COUNT && n <= MEM_SIZES[i] && forall j :: 0 <= j < i ==> MEM_SIZES[j] < n
  }

  /** To be above every smaller class is to be above the next smaller one. */
  lemma OneBelow(nbytes: int, c: nat)
    requires c < SIZE_COUNT
    ensures (forall j :: 0 <= j < c ==> MEM_SIZES[j] < nbytes) <==> (c > 0 ==> MEM_SIZES[c - 1] < nbytes)
  {
    forall j | 0 <= j < c
      ensures c > 0 && MEM_SIZES[j] <= MEM_SIZES[c - 1] < MEM_SIZES[c]
    {
      Increasing(c - 1, c);
      if j < c - 1 { Increasing(j, c - 1); }
    }
  }

  /** The table ends where doubling would overflow. */
  lemma DoublingEnds(i: nat)
    requires i < SIZE_COUNT
    ensures 0 < MEM_SIZES[i] <= LARGEST && (MEM_SIZES[i] * 2 > INT_MAX <==> i + 1 == SIZE_COUNT)
    ensures if i + 1 < SIZE_COUNT then MEM_SIZES[i + 1] == 2 * MEM_SIZES[i] else MEM_SIZES[i] == LARGEST
  {
    if i + 1 < SIZE_COUNT {
      Doubling(i);
      Increasing(i, i + 1);
    }
  }

  /** `sgc_get_size_index`.  None stands for the signed overflow of `mem_size *= 2`,
      which happens exactly for requests above the largest class. */
  method GetSizeIndex(nbytes: int) returns (r: Option<nat>)
    ensures r.Some? <==> nbytes <= LARGEST
    ensures r.Some? ==> IsClassOf(nbytes, r.value)
  {
    var memSize := 4;
    var sizeIndex := 0;
    while memSize < nbytes
      invariant sizeIndex < SIZE_COUNT && memSize == MEM_SIZES[sizeIndex]
      invariant sizeIndex > 0 ==> MEM_SIZES[sizeIndex - 1] < nbytes
      decreases SIZE_COUNT - sizeIndex
    {
      DoublingEnds(sizeIndex);
      if memSize * 2 > INT_MAX {
        return None;
      }
      sizeIndex := sizeIndex + 1;
      memSize := memSize * 2;
    }
    DoublingEnds(sizeIndex);
    OneBelow(nbytes, sizeIndex);
    return Some(sizeIndex);
  }

  /** The test of `sgc_resize_object` (src/sgc.c:274-283): the block of class `c` is kept
      for `nbytes` bytes exactly when `c` is the class a new request would get. */
  predicate KeepsBlock(nbytes: int, c: nat): (reuse: bool)
    requires c < SIZE_COUNT
    ensures reuse <==> IsClassOf(nbytes, c)
  {
    OneBelow(nbytes, c);
    var size := MEM_SIZES[c];
    if nbytes < size && c > 0 then
      var smaller := MEM_SIZES[c - 1];
      !(nbytes <= smaller)   // a smaller one will do
    else
      !(nbytes > size)       // a bigger one is needed
  }
}
