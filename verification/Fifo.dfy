/** The intrusive stack of src/sgc_lifo.h and the two-stack queue of src/sgc_fifo.h. */
module TwoStackQueue {
  import opened Seqs

  /** A link together with the data that follows it, here a message (src/sgc_mess.h). */
  class Cell {
    var link: Cell?
    var message: int
    var arg1: int
    var arg2: int

    constructor () {
    }
  }

  /** The NULL-terminated chain through `link` that starts at `head`. */
  ghost predicate Chained(head: Cell?, s: seq<Cell>)
    reads s`link
  {
    && NoDup(s) && head == (if s == [] then null else s[0])
    && forall i {:trigger s[i].link} :: 0 <= i < |s| ==> s[i].link == if i + 1 == |s| then null else s[i + 1]
  }

  function Reversed<T>(s: seq<T>): (r: seq<T>)
    ensures |r| == |s| && forall i :: 0 <= i < |s| ==> r[i] == s[|s| - 1 - i]
  {
    if s == [] then [] else Reversed(s[1..]) + [s[0]]
  }

  class Lifo {
    var n: nat
    var top: Cell?
    ghost var s: seq<Cell>   // the stack, top first
    ghost var steps: nat     // the operations so far

    ghost predicate Valid()
      reads this, s`link
    {
      Chained(top, s) && n == |s|
    }

    constructor ()
      ensures Valid() && s == [] && steps == 0
    {
      n, top, s, steps := 0, null, [], 0;
    }

    /** `sgc_lifo_avail` */
    method Avail() returns (cell: Cell?)
      requires Valid()
      modifies `steps
      ensures Valid() && cell == (if s == [] then null else s[0]) && steps == old(steps) + 1
    {
      steps := steps + 1;
      return top;
    }

    /** `sgc_lifo_push` */
    method Push(cell: Cell)
      requires Valid() && cell !in s
      modifies this, cell`link
      ensures Valid() && s == [cell] + old(s) && steps == old(steps) + 1
    {
      cell.link := top;
      top := cell;
      n := n + 1;
      s, steps := [cell] + s, steps + 1;
    }

    /** `sgc_lifo_pop`; the link of the cell is left as it was. */
    method Pop() returns (cell: Cell?)
      requires Valid()
      modifies this
      ensures Valid() && steps == old(steps) + 1
      ensures cell == (if old(s) == [] then null else old(s)[0]) && (cell != null ==> cell !in s)
      ensures s == if old(s) == [] then [] else old(s)[1..]
    {
      cell := top;
      steps := steps + 1;
      if top != null {
        top := top.link;
        n := n - 1;
        s := s[1..];
      }
    }

    /** `sgc_lifo_init` */
    method Reset()
      modifies this
      ensures Valid() && s == [] && steps == old(steps)
    {
      n, top, s := 0, null, [];
    }
  }

  class Fifo {
    const input: Lifo
    const output: Lifo
    ghost var calls: nat   // of Put, Get and Avail

    /** The abstract queue, first cell first. */
    ghost function Queue(): seq<Cell>
      reads input`s, output`s
    {
      output.s + Reversed(input.s)
    }

    ghost predicate Linked()
      reads this, input, output, input.s`link, output.s`link
    {
      input != output && input.Valid() && output.Valid() && Disjoint(input.s, output.s)
    }

    /** The stack operations so far, and two more for every cell still in the input stack,
        are at most three for every call. */
    ghost predicate Paid()
      reads this, input, output
    {
      input.steps + output.steps + 2 * |input.s| <= 3 * calls
    }

    ghost predicate Valid()
      reads this, input, output, input.s`link, output.s`link
    {
      Linked() && Paid()
    }

    /** `sgc_fifo_init` */
    constructor ()
      ensures Valid() && Queue() == [] && calls == 0 && fresh(input) && fresh(output)
    {
      input := new Lifo();
      output := new Lifo();
      calls := 0;
    }

    /** `sgc_fifo_size` */
    method Size() returns (size: nat)
      requires Valid()
      ensures size == |Queue()|
    {
      size := input.n + output.n;
    }

    lemma QueueNoDup()
      requires Linked()
      ensures NoDup(Queue()) && Elements(Queue()) == Elements(input.s) + Elements(output.s)
    {
      forall x | x in input.s || x in Reversed(input.s)
        ensures x in input.s && x in Reversed(input.s)
      {
        ReversedMembers(input.s, x);
      }
      ReversedNoDup(input.s);
      forall x | x in output.s
        ensures x !in Reversed(input.s)
      {
        ReversedMembers(input.s, x);
      }
      NoDupConcat(output.s, Reversed(input.s));
    }

    lemma ValidQueue()
      requires Valid()
      ensures NoDup(Queue()) && Elements(Queue()) == Elements(input.s) + Elements(output.s)
    {
      QueueNoDup();
    }

    lemma QueueMembers(x: Cell)
      ensures x in Queue() <==> x in input.s || x in output.s
    {
      ReversedMembers(input.s, x);
    }

    /** `sgc_fifo_put` */
    method Put(cell: Cell)
      requires Valid() && cell !in Queue()
      modifies `calls, input, cell`link
      ensures Valid() && Queue() == old(Queue()) + [cell] && calls == old(calls) + 1
    {
      QueueMembers(cell);
      input.Push(cell);
      calls := calls + 1;
    }

    /** The state of the transfer loop: `v1` and `v2` are off the stacks, `q` is the queue. */
    ghost predicate Moving(v1: Cell, v2: Cell?, q: seq<Cell>, in0: set<Cell>, budget: nat)
      reads this, input, output, input.s`link, output.s`link
    {
      && Linked() && v1 !in input.s && v1 !in output.s && v1 != v2
      && (if v2 == null then input.s == [] else v2 !in input.s && v2 !in output.s && v2 in in0)
      && v1 in in0 && Elements(input.s) <= in0
      && q == Reversed(input.s) + (if v2 == null then [] else [v2]) + [v1] + output.s
      && input.steps + output.steps + 2 * |input.s| + (if v2 == null then 0 else 2) <= budget
    }

    /** One iteration of the loop. */
    method MoveOne(v1: Cell, v2: Cell, ghost q: seq<Cell>, ghost in0: set<Cell>, ghost budget: nat) returns (v3: Cell?)
      requires Moving(v1, v2, q, in0, budget)
      modifies input, output, v1`link
      ensures Moving(v2, v3, q, in0, budget)
      ensures |input.s| < |old(input.s)| || v3 == null
    {
      hide Chained;
      ReversedCons(input.s);
      output.Push(v1);
      v3 := input.Pop();
    }

    /** The loop of `sgc_fifo_get`, from the first pop of the input stack: all cells but the
        deepest one go to the output stack, which was empty. */
    method Transfer() returns (cell: Cell?)
      requires Linked() && output.s == []
      modifies input, output, Elements(input.s)`link
      ensures Linked() && Queue() == (if old(Queue()) == [] then [] else old(Queue())[1..])
      ensures cell == if old(Queue()) == [] then null else old(Queue())[0]
      ensures input.s == [] && input.steps + output.steps <= old(input.steps + output.steps) + 2 * |old(input.s)| + 1
    {
      hide Chained, Lifo.Valid, Reversed;
      ghost var q, in0, budget := Queue(), Elements(input.s), input.steps + output.steps + 2 * |input.s|;
      ReversedCons(input.s);
      var v1 := input.Pop();
      if v1 != null {
        ReversedCons(input.s);
        var v2 := input.Pop();
        while v2 != null
          invariant v1 != null && Moving(v1, v2, q, in0, budget)
          decreases |input.s|, v2 != null
        {
          var v3 := MoveOne(v1, v2, q, in0, budget);
          v1, v2 := v2, v3;
        }
        ReversedCons(input.s);
        assert q == [v1] + output.s;
      }
      return v1;
    }

    /** `sgc_fifo_get` */
    method Get() returns (cell: Cell?)
      requires Valid()
      modifies `calls, input, output, Elements(input.s)`link
      ensures Valid() && Queue() == (if old(Queue()) == [] then [] else old(Queue())[1..])
      ensures cell == (if old(Queue()) == [] then null else old(Queue())[0]) && calls == old(calls) + 1
    {
      cell := output.Pop();
      if cell == null {
        cell := Transfer();
      }
      calls := calls + 1;
    }

    /** The state of the loop of `sgc_fifo_avail`: `v` is off the stacks. */
    ghost predicate Emptying(v: Cell?, q: seq<Cell>, in0: set<Cell>, budget: nat)
      reads this, input, output, input.s`link, output.s`link
    {
      && Linked() && Elements(input.s) <= in0
      && (if v == null then input.s == [] else v !in input.s && v !in output.s && v in in0)
      && q == Reversed(input.s) + (if v == null then [] else [v]) + output.s
      && input.steps + output.steps + 2 * |input.s| + (if v == null then 0 else 2) <= budget
    }

    method EmptyOne(v: Cell, ghost q: seq<Cell>, ghost in0: set<Cell>, ghost budget: nat) returns (next: Cell?)
      requires Emptying(v, q, in0, budget)
      modifies input, output, v`link
      ensures Emptying(next, q, in0, budget)
      ensures |input.s| < |old(input.s)| || next == null
    {
      hide Chained;
      ReversedCons(input.s);
      output.Push(v);
      next := input.Pop();
    }

    /** The loop of `sgc_fifo_avail`. */
    method Empty()
      requires Linked() && output.s == []
      modifies input, output, Elements(input.s)`link
      ensures Linked() && Queue() == old(Queue()) && input.s == []
      ensures input.steps + output.steps <= old(input.steps + output.steps) + 2 * |old(input.s)| + 1
    {
      hide Chained, Lifo.Valid, Reversed;
      ghost var q, in0, budget := Queue(), Elements(input.s), input.steps + output.steps + 2 * |input.s| + 1;
      ReversedCons(input.s);
      var v := input.Pop();
      while v != null
        invariant Emptying(v, q, in0, budget)
        decreases |input.s|, v != null
      {
        v := EmptyOne(v, q, in0, budget);
      }
      ReversedCons(input.s);
    }

    /** `sgc_fifo_avail` */
    method Avail() returns (cell: Cell?)
      requires Valid()
      modifies `calls, input, output, Elements(input.s)`link
      ensures Valid() && Queue() == old(Queue()) && calls == old(calls) + 1
      ensures cell == if Queue() == [] then null else Queue()[0]
    {
      calls := calls + 1;
      cell := output.Avail();
      if cell == null {
        Empty();
        cell := output.Avail();
      }
    }

    /** The state of the loop of `sgc_fifo_clear`: the cells of `done` are off the queue, and
        all but the last of them are linked. */
    ghost predicate Chaining(cur: Cell, next: Cell?, q: seq<Cell>, done: seq<Cell>)
      reads this, input, output, input.s`link, output.s`link, done`link
    {
      && Valid() && q == done + (if next == null then [] else [next]) + Queue() && (next == null ==> Queue() == [])
      && done != [] && cur == done[|done| - 1]
      && forall i {:trigger done[i].link} :: 0 <= i < |done| - 1 ==> done[i].link == done[i + 1]
    }

    /** The cells that are off the queue are on neither stack, and differ from each other. */
    lemma ChainingApart(cur: Cell, next: Cell, q: seq<Cell>, done: seq<Cell>)
      requires NoDup(q) && Chaining(cur, next, q, done)
      ensures forall y | y in done :: y !in input.s && y !in output.s
      ensures NoDup(done) && Elements(input.s) <= Elements(q) && cur in q
    {
      QueueNoDup();
      SplitApart(q, done, next, Queue());
      assert forall i :: 0 <= i < |done| ==> done[i] == q[i];
      forall y | y in done
        ensures y !in input.s && y !in output.s
      {
        assert y !in Queue();
        assert y !in Elements(Queue());
      }
    }

    method ClearOne(cur: Cell, next: Cell, ghost q: seq<Cell>, ghost done: seq<Cell>) returns (next': Cell?)
      requires NoDup(q) && Chaining(cur, next, q, done)
      modifies `calls, input, output, Elements(q)`link
      ensures Chaining(next, next', q, done + [next])
    {
      hide Linked, Paid, Queue;
      ChainingApart(cur, next, q, done);
      assert forall i :: 0 <= i < |done| ==> done[i] in done;
      cur.link := next;
      assert forall i {:trigger done[i].link} :: 0 <= i < |done| ==> done[i].link == (done + [next])[i + 1];
      next' := Get();
      assert q == done + [next] + (if next' == null then [] else [next']) + Queue();
    }

    method ClearEnd(cur: Cell, ghost q: seq<Cell>, ghost done: seq<Cell>)
      requires NoDup(q) && Chaining(cur, null, q, done)
      modifies input, output, cur`link
      ensures Valid() && Queue() == [] && Chained(done[0], q)
    {
      QueueNoDup();
      assert q == done;
      cur.link := null;
      input.Reset();
      output.Reset();
    }

    method ClearStart(first: Cell, ghost q: seq<Cell>) returns (next: Cell?)
      requires NoDup(q) && Valid() && q == [first] + Queue()
      modifies `calls, input, output, Elements(q)`link
      ensures Chaining(first, next, q, [first])
    {
      hide Linked, Paid;
      QueueNoDup();
      next := Get();
    }

    /** `sgc_fifo_clear`: the whole queue, in order, as one chain. */
    method Clear() returns (first: Cell?)
      requires Valid()
      modifies `calls, input, output, Elements(Queue())`link
      ensures Valid() && Queue() == [] && Chained(first, old(Queue()))
    {
      hide Linked, Paid, Queue;
      ghost var q := Queue();
      QueueNoDup();
      first := Get();
      if first == null {
        return null;
      }
      ghost var done: seq<Cell> := [first];
      var cur: Cell := first;
      var next := ClearStart(cur, q);
      while next != null
        invariant Chaining(cur, next, q, done) && first == done[0]
        decreases |q| - |done|
      {
        var after := ClearOne(cur, next, q, done);
        done := done + [next];
        cur, next := next, after;
      }
      ClearEnd(cur, q, done);
    }
  }

  lemma SplitApart<T>(q: seq<T>, s: seq<T>, x: T, t: seq<T>)
    requires NoDup(q) && q == s + [x] + t
    ensures x !in t && x !in s && forall y | y in s :: y !in t
  {
    assert q[|s|] == x;
    assert forall i :: 0 <= i < |s| ==> q[i] == s[i];
    assert forall j :: 0 <= j < |t| ==> q[|s| + 1 + j] == t[j];
  }

  lemma ReversedCons<T>(s: seq<T>)
    ensures Reversed(s) == if s == [] then [] else Reversed(s[1..]) + [s[0]]
  {
  }

  lemma {:induction false} ReversedNoDup<T>(s: seq<T>)
    requires NoDup(s)
    ensures NoDup(Reversed(s))
  {
    if s != [] {
      ReversedNoDup(s[1..]);
      ReversedMembers(s[1..], s[0]);
    }
  }

  lemma {:induction false} ReversedMembers<T>(s: seq<T>, x: T)
    ensures x in Reversed(s) <==> x in s
  {
    if s != [] {
      ReversedMembers(s[1..], x);
    }
  }
}
