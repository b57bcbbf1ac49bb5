/** The words of a payload: what the conservative scanner reads. */
module PayloadWords {
  import opened Carving
  import opened DList

  /** The little-endian value of `bytes`. */
  function FromBytes(bytes: seq<Byte>): nat {
    if bytes == [] then 0 else bytes[0] + 256 * FromBytes(bytes[1..])
  }

  /** The k-th word of a payload. */
  function WordAt(data: seq<Byte>, k: nat): nat
    requires (k + 1) * WORD <= |data|
  {
    FromBytes(data[k * WORD..(k + 1) * WORD])
  }

  lemma Tail(bytes: seq<Byte>, i: nat)
    requires i < |bytes|
    ensures FromBytes(bytes[i..]) == bytes[i] + 256 * FromBytes(bytes[i + 1..])
  {
    assert bytes[i..][1..] == bytes[i + 1..];
  }

  /** A word in memory has its lowest byte first. */
  lemma LowestFirst(data: seq<Byte>, k: nat)
    requires (k + 1) * WORD <= |data|
    ensures var b := data[8 * k..8 * k + 8];
      WordAt(data, k) == b[0] as nat + 0x100 * b[1] as nat + 0x1_0000 * b[2] as nat +
        0x100_0000 * b[3] as nat + 0x1_0000_0000 * b[4] as nat + 0x100_0000_0000 * b[5] as nat +
        0x1_0000_0000_0000 * b[6] as nat + 0x100_0000_0000_0000 * b[7] as nat
  {
    var w := data[k * WORD..(k + 1) * WORD];
    assert FromBytes([]) == 0;
    Tail(w, 0); Tail(w, 1); Tail(w, 2); Tail(w, 3); Tail(w, 4); Tail(w, 5); Tail(w, 6); Tail(w, 7);
    hide FromBytes;
    assert w[0..] == w && w[8..] == [];
    assert forall i :: 0 <= i < 8 ==> w[i] == data[8 * k + i];
  }

  /** What the word `w` denotes: a cell of `cells` whose header is in `stamped`, or nothing. */
  function Denoted(cells: map<int, Mem>, stamped: set<Mem>, w: int): seq<Mem> {
    if w != 0 && w - HEADER in cells && cells[w - HEADER] in stamped then [cells[w - HEADER]] else []
  }

  /** What the first `n` words of a payload denote. */
  function WordRefs(cells: map<int, Mem>, stamped: set<Mem>, data: seq<Byte>, n: nat): seq<Mem>
    requires n * WORD <= |data|
  {
    if n == 0 then [] else
    WordRefs(cells, stamped, data, n - 1) + Denoted(cells, stamped, WordAt(data, n - 1))
  }

  lemma {:induction false} WordRefsPrefix(cells: map<int, Mem>, stamped: set<Mem>, data: seq<Byte>, i: nat, n: nat)
    requires i <= n && n * WORD <= |data|
    ensures forall x | x in WordRefs(cells, stamped, data, i) :: x in WordRefs(cells, stamped, data, n)
    ensures i < n ==> forall x | x in Denoted(cells, stamped, WordAt(data, i)) :: x in WordRefs(cells, stamped, data, n)
    decreases n - i
  {
    if i < n {
      WordRefsPrefix(cells, stamped, data, i + 1, n);
      assert forall x | x in Denoted(cells, stamped, WordAt(data, i)) :: x in WordRefs(cells, stamped, data, i + 1);
    }
  }

  /** Every reference comes from a word. */
  lemma {:induction false} WordRefsSource(cells: map<int, Mem>, stamped: set<Mem>, data: seq<Byte>, n: nat, x: Mem) returns (j: nat)
    requires n * WORD <= |data| && x in WordRefs(cells, stamped, data, n)
    ensures j < n && (j + 1) * WORD <= |data| && x in Denoted(cells, stamped, WordAt(data, j))
  {
    if x in Denoted(cells, stamped, WordAt(data, n - 1)) {
      j := n - 1;
    } else {
      j := WordRefsSource(cells, stamped, data, n - 1, x);
    }
  }

  // ----- Writing -----

  /** The `n` little-endian bytes of `w`. */
  function ToBytes(w: nat, n: nat): (bytes: seq<Byte>)
    ensures |bytes| == n
  {
    if n == 0 then [] else [w % 256] + ToBytes(w / 256, n - 1)
  }

  function Power256(n: nat): (p: nat)
    ensures p > 0
  {
    if n == 0 then 1 else 256 * Power256(n - 1)
  }

  /** What is written as a word is read back as that word. */
  lemma {:induction false} BytesRoundTrip(w: nat, n: nat)
    requires w < Power256(n)
    ensures FromBytes(ToBytes(w, n)) == w
  {
    if n > 0 {
      assert w / 256 < Power256(n - 1);
      BytesRoundTrip(w / 256, n - 1);
      assert ToBytes(w, n)[1..] == ToBytes(w / 256, n - 1);
    }
  }

  lemma {:induction false} ZeroBytes(n: nat)
    ensures FromBytes(seq(n, _ => 0 as Byte)) == 0
  {
    if n > 0 {
      var zeros := seq(n, _ => 0 as Byte);
      assert zeros[1..] == seq(n - 1, _ => 0 as Byte);
      ZeroBytes(n - 1);
    }
  }

  /** The payload after the store of `w` in its k-th word. */
  function Stored(data: seq<Byte>, k: nat, w: nat): (r: seq<Byte>)
    requires (k + 1) * WORD <= |data|
    ensures |r| == |data|
  {
    data[..k * WORD] + ToBytes(w, WORD) + data[(k + 1) * WORD..]
  }

  /** A store changes the word it is meant for and no other. */
  lemma StoredWord(data: seq<Byte>, k: nat, w: nat, j: nat)
    requires (k + 1) * WORD <= |data| && (j + 1) * WORD <= |data| && w < Power256(WORD)
    ensures WordAt(Stored(data, k, w), j) == if j == k then w else WordAt(data, j)
  {
    var r := Stored(data, k, w);
    if j == k {
      BytesRoundTrip(w, WORD);
      assert r[k * WORD..(k + 1) * WORD] == ToBytes(w, WORD);
    } else {
      assert r[j * WORD..(j + 1) * WORD] == data[j * WORD..(j + 1) * WORD];
    }
  }

  /** The payload after its first `n` bytes were set to 0. */
  function Zeroed(data: seq<Byte>, n: nat): (r: seq<Byte>)
    requires n <= |data|
    ensures |r| == |data|
  {
    seq(n, _ => 0 as Byte) + data[n..]
  }

  /** Clearing `n` bytes clears the words that lie wholly inside them, and leaves those
      behind them as they were. */
  lemma ZeroedWord(data: seq<Byte>, n: nat, k: nat)
    requires n <= |data| && (k + 1) * WORD <= |data|
    ensures (k + 1) * WORD <= n ==> WordAt(Zeroed(data, n), k) == 0
    ensures n <= k * WORD ==> WordAt(Zeroed(data, n), k) == WordAt(data, k)
  {
    var r := Zeroed(data, n);
    if (k + 1) * WORD <= n {
      assert r[k * WORD..(k + 1) * WORD] == seq(WORD, _ => 0 as Byte);
      ZeroBytes(WORD);
    }
    if n <= k * WORD {
      assert r[k * WORD..(k + 1) * WORD] == data[k * WORD..(k + 1) * WORD];
    }
  }

  // ----- Growing -----

  /** Between two states of memory, `mem` is the only cell that words may newly denote. */
  ghost predicate GrewBy(cells: map<int, Mem>, stamped: set<Mem>, cells': map<int, Mem>, stamped': set<Mem>, mem: Mem) {
    forall a | a in cells' :: cells'[a] in stamped' ==>
      cells'[a] == mem || (a in cells && cells[a] == cells'[a] && cells[a] in stamped)
  }
}
