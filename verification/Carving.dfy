/** How an area is cut into cells: the arithmetic of src/sgc_mem_heap.c:36-101, for any
    header size, alignment and area size. */
module Carving {
  import opened SizeClasses

  const WORD: nat := 8           // sizeof(sgc_word_t)
  const HEADER: nat := 168       // sizeof(sgc_mem_t), a multiple of WORD
  const AREA_SIZE: nat := 8192   // SGC_AREA_SIZE
  const AREA_HEADER: nat := 8    // sizeof(sgc_area_t)
  const AREA_ROOM: nat := AREA_SIZE - AREA_HEADER  // sgc_area_heap_area_size()

  /** `n` rounded up to a multiple of `align`, as src/sgc_mem_heap.c:42-45 does it. */
  function RoundUp(n: nat, align: nat): (r: nat)
    requires align > 0
    ensures n <= r < n + align && r % align == 0
  {
    if n % align != 0 then
      RoundUpIsMultiple(n, align);
      n + (align - n % align)
    else n
  }

  lemma RoundUpIsMultiple(n: nat, align: nat)
    requires align > 0
    ensures (n + (align - n % align)) % align == 0
  {
    assert n == align * (n / align) + n % align;
    MultipleMod(n / align + 1, align);
    assert n + (align - n % align) == (n / align + 1) * align;
  }

  lemma MultipleMod(i: nat, m: nat)
    requires m > 0
    ensures (i * m) % m == 0
  {
    var q, r := (i * m) / m, (i * m) % m;
    assert i * m == m * q + r;
    assert q * m == m * q && (q + 1) * m == q * m + m && (i + 1) * m == i * m + m;
    CancelLess(i, q + 1, m);
    CancelLess(q, i + 1, m);
  }

  /** `heap->mem_size` of the class whose objects hold `objSize` bytes. */
  function CellSize(objSize: nat, header: nat, align: nat): (r: nat)
    requires align > 0
    ensures objSize + header <= r < objSize + header + align && r % align == 0
  {
    RoundUp(objSize + header, align)
  }

  function CellStart(data: int, i: nat, cell: nat): int {
    data + i * cell
  }

  /** The cells of one area do not overlap and do not leave the area. */
  lemma CellsAreDisjoint(data: int, room: nat, cell: nat, i: nat, j: nat)
    requires cell > 0 && i < j < room / cell
    ensures CellStart(data, i, cell) + cell <= CellStart(data, j, cell)
    ensures CellStart(data, j, cell) + cell <= data + room
  {
    MulMono(i + 1, j, cell);
    assert (i + 1) * cell == i * cell + cell;
    CellEnd(data, room, cell, j);
  }

  lemma CellEnd(data: int, room: nat, cell: nat, i: nat)
    requires cell > 0 && i < room / cell
    ensures CellStart(data, i, cell) + cell <= data + room
  {
    MulMono(i + 1, room / cell, cell);
    assert (i + 1) * cell == i * cell + cell;
    assert room == cell * (room / cell) + room % cell;
  }

  /** There is no room for one cell more. */
  lemma AsManyAsFit(room: nat, cell: nat)
    requires cell > 0
    ensures room / cell * cell <= room < (room / cell + 1) * cell
  {
    assert room == cell * (room / cell) + room % cell;
    assert (room / cell + 1) * cell == room / cell * cell + cell;
  }

  lemma MulMono(a: nat, b: nat, m: nat)
    requires a <= b
    ensures a * m <= b * m
  {
  }

  /** The cell-start test of `sgc_mem_heap_valid` for one area. */
  predicate StartsIn(p: int, data: int, areaSize: nat, cell: nat)
    requires cell > 0
  {
    data <= p < data + areaSize && (p - data) % cell == 0
  }

  /** The test accepts exactly the starts of the `n` cells that `expand` makes. */
  lemma StartTestIsExact(p: int, data: int, n: nat, cell: nat)
    requires cell > 0
    ensures StartsIn(p, data, n * cell, cell) <==> exists i: nat :: i < n && p == CellStart(data, i, cell)
  {
    if StartsIn(p, data, n * cell, cell) {
      var i := (p - data) / cell;
      assert p - data == cell * i + (p - data) % cell;
      if i >= n { MulMono(n, i, cell); }
      assert i < n && p == CellStart(data, i, cell);
    }
    if i: nat :| i < n && p == CellStart(data, i, cell) {
      MultipleMod(i, cell);
      MulMono(i + 1, n, cell);
      assert (i + 1) * cell == i * cell + cell;
    }
  }

  /** Every word that scanning an object reads lies in the object's own cell, whatever
      the class: the loop steps by WORD while the offset is below the class size, so for
      the 4-byte class it reads four bytes that only the alignment provides. */
  lemma ScanStaysInside(objSize: nat, header: nat, word: nat, k: nat)
    requires word > 0 && header % word == 0 && k * word < objSize
    ensures header + k * word + word <= CellSize(objSize, header, word)
  {
    var cell := CellSize(objSize, header, word);
    var a, h := cell / word, header / word;
    assert cell == a * word && header == h * word;
    assert (h + k) * word == h * word + k * word;
    CancelLess(h + k, a, word);
    MulMono(h + k + 1, a, word);
    assert (h + k + 1) * word == (h + k) * word + word;
  }

  lemma CancelLess(a: nat, b: nat, m: nat)
    requires a * m < b * m
    ensures a < b
  {
    if b <= a { MulMono(b, a, m); }
  }

  /** The numbers of cells that areas of the small classes hold. */
  lemma CellsPerArea(c: nat)
    requires c < SMALL_COUNT
    ensures AREA_ROOM / CellSize(MEM_SIZES[c], HEADER, WORD) == [46, 46, 44, 40, 35, 27, 19, 12, 6][c]
  {
  }

  /** Every small class gets at least one cell out of an area. */
  lemma EveryAreaHasCells(c: nat)
    requires c < SMALL_COUNT
    ensures AREA_ROOM / CellSize(MEM_SIZES[c], HEADER, WORD) > 0
  {
    Increasing(c, SMALL_COUNT);
  }
}
