/** The message pool and queue of src/sgc_mess.c (the threaded build), with each queue
    operation atomic. */
module MessageQueue {
  import opened Seqs
  import opened Carving
  import opened TwoStackQueue

  const NEW_MESSAGE: int := 1
  const CTI_MESSAGE: int := 2
  const FREE_MESSAGE: int := 3

  datatype Message = Message(kind: int, arg1: int, arg2: int)

  ghost function Content(cell: Cell): Message
    reads cell`message, cell`arg1, cell`arg2
  {
    Message(cell.message, cell.arg1, cell.arg2)
  }

  ghost function Contents(s: seq<Cell>): (r: seq<Message>)
    reads s`message, s`arg1, s`arg2
    ensures |r| == |s|
  {
    if s == [] then [] else [Content(s[0])] + Contents(s[1..])
  }

  lemma {:induction false} ContentsSnoc(s: seq<Cell>, cell: Cell)
    ensures Contents(s + [cell]) == Contents(s) + [Content(cell)]
  {
    if s == [] {
      assert s + [cell] == [cell];
    } else {
      assert (s + [cell])[1..] == s[1..] + [cell];
      ContentsSnoc(s[1..], cell);
    }
  }

  // ----- Order -----

  /** The objects that a message presupposes, as header addresses. */
  function Subjects(m: Message): set<int> {
    if m.kind == FREE_MESSAGE then {m.arg1}
    else if m.kind == CTI_MESSAGE then {m.arg2 - HEADER} + (if m.arg1 == 0 then {} else {m.arg1 - HEADER})
    else {}
  }

  /** The message that `sgc_new_object` sent for `x` is among the first `n`. */
  ghost predicate NewBefore(ms: seq<Message>, n: nat, x: int) {
    exists i :: 0 <= i < n && i < |ms| && ms[i].kind == NEW_MESSAGE && ms[i].arg1 == x
  }

  /** Every object is announced before anything else is said about it. */
  ghost predicate Announced(ms: seq<Message>) {
    forall j, x :: 0 <= j < |ms| && x in Subjects(ms[j]) ==> NewBefore(ms, j, x)
  }

  /** Which objects that are: the one of a FREE message, and those of a CTI message that are not
      NULL, which names them by their payloads. */
  lemma AnnouncedMeans(ms: seq<Message>)
    ensures Announced(ms) <==> forall j :: 0 <= j < |ms| ==>
      && (ms[j].kind == FREE_MESSAGE ==> NewBefore(ms, j, ms[j].arg1))
      && (ms[j].kind == CTI_MESSAGE ==> NewBefore(ms, j, ms[j].arg2 - HEADER) && (ms[j].arg1 == 0 || NewBefore(ms, j, ms[j].arg1 - HEADER)))
  {
    forall j | 0 <= j < |ms|
      ensures ms[j].kind == FREE_MESSAGE ==> Subjects(ms[j]) == {ms[j].arg1}
      ensures ms[j].kind == CTI_MESSAGE ==> ms[j].arg2 - HEADER in Subjects(ms[j]) && (ms[j].arg1 == 0 || ms[j].arg1 - HEADER in Subjects(ms[j]))
    {
    }
  }

  /** Nobody can name an object before its NEW message is sent, so sending keeps the order. */
  lemma AnnouncedSnoc(ms: seq<Message>, m: Message)
    requires Announced(ms) && forall x | x in Subjects(m) :: NewBefore(ms, |ms|, x)
    ensures Announced(ms + [m])
  {
    var ns := ms + [m];
    forall j, x | 0 <= j < |ns| && x in Subjects(ns[j])
      ensures NewBefore(ns, j, x)
    {
      assert NewBefore(ms, j, x);
      var i :| 0 <= i < j && i < |ms| && ms[i].kind == NEW_MESSAGE && ms[i].arg1 == x;
      assert ns[i] == ms[i];
    }
  }

  /** What the collector sees is a prefix of what was sent, in which that order holds too. */
  lemma AnnouncedPrefix(ms: seq<Message>, ns: seq<Message>)
    requires Announced(ms + ns)
    ensures Announced(ms)
  {
    forall j, x | 0 <= j < |ms| && x in Subjects(ms[j])
      ensures NewBefore(ms, j, x)
    {
      assert ms[j] == (ms + ns)[j];
      assert NewBefore(ms + ns, j, x);
      var i :| 0 <= i < j && (ms + ns)[i].kind == NEW_MESSAGE && (ms + ns)[i].arg1 == x;
      assert ms[i] == (ms + ns)[i];
    }
  }

  // ----- Places -----

  /** Every cell of `made` is in exactly one of the pool, the queue and `flight`. */
  ghost predicate Places(pool: seq<Cell>, q: seq<Cell>, flight: set<Cell>, made: set<Cell>) {
    && (forall x | x in pool :: x in made && x !in q && x !in flight)
    && (forall x | x in q :: x in made && x !in flight)
    && (forall x | x in made :: x in pool || x in q || x in flight)
    && flight <= made
  }

  /** As numbers, the three make up all cells. */
  lemma PlacesSize(pool: seq<Cell>, q: seq<Cell>, flight: set<Cell>, made: set<Cell>)
    requires Places(pool, q, flight, made) && NoDup(pool) && NoDup(q)
    ensures |pool| + |q| + |flight| == |made|
  {
    NoDupSize(pool);
    NoDupSize(q);
    assert made == Elements(pool) + Elements(q) + flight;
    assert Elements(pool) !! Elements(q) && (Elements(pool) + Elements(q)) !! flight;
  }

  lemma PlacesGet(pool: seq<Cell>, q: seq<Cell>, flight: set<Cell>, made: set<Cell>)
    requires Places(pool, q, flight, made) && NoDup(q) && q != []
    ensures Places(pool, q[1..], flight + {q[0]}, made) && q[0] !in flight
  {
    forall x | x in q && x != q[0]
      ensures x in q[1..]
    {
      var i :| 0 <= i < |q| && q[i] == x;
      assert q[1..][i - 1] == x;
    }
  }

  lemma PlacesPut(pool: seq<Cell>, q: seq<Cell>, flight: set<Cell>, made: set<Cell>, m: Cell)
    requires Places(pool, q, flight, made) && m in flight
    ensures Places(pool, q + [m], flight - {m}, made) && m !in q && m !in pool
    ensures Places([m] + pool, q, flight - {m}, made)
  {
  }

  lemma PlacesTake(pool: seq<Cell>, q: seq<Cell>, flight: set<Cell>, made: set<Cell>, m: Cell)
    requires Places(pool, q, flight, made)
    ensures pool != [] && NoDup(pool) ==>
      Places(pool[1..], q, flight + {pool[0]}, made) && pool[0] !in flight && pool[0] in made && pool[0] !in q
    ensures m !in made ==> Places(pool, q, flight + {m}, made + {m}) && Places([m] + pool, q, flight, made + {m})
  {
    forall x | pool != [] && x in pool && x != pool[0]
      ensures x in pool[1..]
    {
      var i :| 0 <= i < |pool| && pool[i] == x;
      assert pool[1..][i - 1] == x;
    }
  }

  class MessageModule {
    const pool: Lifo
    const queue: Fifo
    ghost var made: set<Cell>        // every cell that was ever allocated
    ghost var flight: set<Cell>      // taken from the pool or the queue, and not back yet
    ghost var sent: seq<Message>     // in the order of the puts
    ghost var handled: seq<Message>  // in the order of the gets

    ghost predicate Apart()
      reads pool, queue, queue.input, queue.output, pool.s`link, queue.input.s`link, queue.output.s`link
    {
      pool != queue.input && pool != queue.output && pool.Valid() && queue.Valid()
    }

    /** No cell is in two places, and none is lost. */
    ghost predicate Conserved()
      reads `made, `flight, pool, queue.input, queue.output
    {
      Places(pool.s, queue.Queue(), flight, made)
    }

    /** What was sent is what was handled and, behind it, what is queued. */
    ghost predicate Ordered()
      reads `sent, `handled, queue.input, queue.output, queue.Queue()`message, queue.Queue()`arg1, queue.Queue()`arg2
    {
      sent == handled + Contents(queue.Queue())
    }

    ghost predicate Valid()
      reads this, pool, queue, queue.input, queue.output, pool.s`link, queue.input.s`link, queue.output.s`link
      reads queue.Queue()`message, queue.Queue()`arg1, queue.Queue()`arg2
    {
      Apart() && Conserved() && Ordered()
    }

    /** The pool, the queue and the cells in flight make up all cells. */
    lemma Counts()
      requires Valid()
      ensures |pool.s| + |queue.Queue()| + |flight| == |made|
    {
      hide Places, Fifo.Queue;
      queue.QueueNoDup();
      PlacesSize(pool.s, queue.Queue(), flight, made);
    }

    /** One cell for the pool. */
    method Stock()
      requires Valid()
      modifies `made, pool
      ensures Valid() && |pool.s| == |old(pool.s)| + 1 && made > old(made) && fresh(made - old(made))
    {
      hide Chained, Fifo.Valid, Reversed, Ordered, Lifo.Valid, NoDup, Places;
      var m := new Cell();
      PlacesTake(pool.s, queue.Queue(), flight, made, m);
      pool.Push(m);
      made := made + {m};
    }

    /** `sgc_message_module_init` */
    constructor (count: nat)
      ensures Valid() && |pool.s| == count && queue.Queue() == [] && flight == {} && sent == handled == []
      ensures fresh(pool) && fresh(queue) && fresh(queue.input) && fresh(queue.output) && fresh(made)
    {
      pool := new Lifo();
      queue := new Fifo();
      made, flight, sent, handled := {}, {}, [], [];
      new;
      hide Valid, Fifo.Queue;
      for i := 0 to count
        invariant Valid() && |pool.s| == i && queue.Queue() == [] && flight == {} && sent == handled == []
        invariant fresh(made) && fresh(pool) && fresh(queue) && fresh(queue.input) && fresh(queue.output)
      {
        Stock();
      }
    }

    /** `sgc_message_new`; `memory` tells whether the system can allocate a cell. */
    method New(message: int, arg1: int, arg2: int, memory: bool) returns (m: Cell?)
      requires Valid()
      modifies `made, `flight, pool, made`message, made`arg1, made`arg2
      ensures Valid() && sent == old(sent) && handled == old(handled)
      ensures m == null <==> old(pool.s) == [] && !memory
      ensures m != null ==> Content(m) == Message(message, arg1, arg2) && flight == old(flight) + {m} && m !in old(flight)
      ensures m != null ==> if old(pool.s) == [] then fresh(m) && made == old(made) + {m} else m == old(pool.s)[0] && made == old(made)
      ensures m == null ==> made == old(made) && flight == old(flight)
    {
      hide Chained, Fifo.Valid, Reversed, Ordered, Lifo.Valid, NoDup;
      m := Take(memory);
      if m == null {
        return null;
      }
      m.message := message;
      m.arg1 := arg1;
      m.arg2 := arg2;
    }

    lemma PoolNoDup()
      requires Valid()
      ensures NoDup(pool.s)
    {
    }

    /** The first cell of the pool, or a new one. */
    method Take(memory: bool) returns (m: Cell?)
      requires Valid()
      modifies `made, `flight, pool
      ensures Valid() && (m == null <==> old(pool.s) == [] && !memory)
      ensures m != null ==> flight == old(flight) + {m} && m !in old(flight)
      ensures m != null ==> if old(pool.s) == [] then fresh(m) && made == old(made) + {m} else m == old(pool.s)[0] && made == old(made)
      ensures m == null ==> made == old(made) && flight == old(flight)
    {
      hide Chained, Fifo.Valid, Reversed, Ordered, Lifo.Valid, NoDup, Places;
      PoolNoDup();
      if pool.s != [] {
        PlacesTake(pool.s, queue.Queue(), flight, made, pool.s[0]);
        assert made + {pool.s[0]} == made;
      }
      m := pool.Pop();
      if m == null {
        if !memory {
          return null;
        }
        m := new Cell();
        PlacesTake(pool.s, queue.Queue(), flight, made, m);
      }
      made, flight := made + {m}, flight + {m};
    }

    /** `sgc_message_delete` */
    method Delete(m: Cell)
      requires Valid() && m in flight
      modifies `flight, pool, m`link
      ensures Valid() && flight == old(flight) - {m} && pool.s == [m] + old(pool.s) && queue.Queue() == old(queue.Queue())
    {
      hide Chained, Fifo.Valid, Reversed, Ordered, Lifo.Valid, NoDup, Places;
      queue.QueueMembers(m);
      PlacesPut(pool.s, queue.Queue(), flight, made, m);
      pool.Push(m);
      flight := flight - {m};
    }

    /** `sgc_message_put` */
    method Put(m: Cell)
      requires Valid() && m in flight
      modifies `flight, `sent, queue`calls, queue.input, m`link
      ensures Valid() && flight == old(flight) - {m} && sent == old(sent) + [Content(m)]
      ensures queue.Queue() == old(queue.Queue()) + [m]
    {
      hide Chained, Fifo.Valid, Lifo.Valid, NoDup, Reversed, Places;
      ContentsSnoc(queue.Queue(), m);
      PlacesPut(pool.s, queue.Queue(), flight, made, m);
      queue.Put(m);
      flight, sent := flight - {m}, sent + [Content(m)];
    }

    lemma PoolApart()
      requires Valid()
      ensures forall m | m in pool.s :: m !in queue.input.s
    {
      queue.ValidQueue();
      assert forall m | m in queue.input.s :: m in Elements(queue.Queue());
    }

    /** `sgc_message_get` */
    method Get() returns (m: Cell?)
      requires Valid()
      modifies `flight, `handled, queue`calls, queue.input, queue.output, Elements(queue.input.s)`link
      ensures Valid() && sent == old(sent) && pool.s == old(pool.s)
      ensures m == if old(queue.Queue()) == [] then null else old(queue.Queue())[0]
      ensures queue.Queue() == if old(queue.Queue()) == [] then [] else old(queue.Queue())[1..]
      ensures m == null ==> handled == old(handled) && flight == old(flight)
      ensures m != null ==> handled == old(handled) + [Content(m)] && flight == old(flight) + {m} && m !in old(flight)
    {
      hide Chained, Fifo.Valid, Lifo.Valid, NoDup, Reversed, Places;
      PoolApart();
      queue.ValidQueue();
      if queue.Queue() != [] {
        PlacesGet(pool.s, queue.Queue(), flight, made);
        assert Contents(queue.Queue()) == [Content(queue.Queue()[0])] + Contents(queue.Queue()[1..]);
      }
      m := queue.Get();
      if m != null {
        flight, handled := flight + {m}, handled + [Content(m)];
      }
    }

    /** `sgc_message_send`.  Without a cell the message is dropped. */
    method Send(message: int, arg1: int, arg2: int, memory: bool)
      requires Valid()
      modifies `made, `flight, `sent, pool, queue`calls, queue.input
      modifies made`message, made`arg1, made`arg2, made`link
      ensures Valid() && flight == old(flight) && handled == old(handled)
      ensures sent == old(sent) + if old(pool.s) == [] && !memory then [] else [Message(message, arg1, arg2)]
    {
      hide Valid, Content;
      var m := New(message, arg1, arg2, memory);
      if m == null {
        return;
      }
      FlightMade();
      Put(m);
    }

    lemma FlightMade()
      requires Valid()
      ensures flight <= made && Elements(queue.input.s) <= made && Elements(queue.Queue()) <= made
    {
      queue.ValidQueue();
    }

    /** `sgc_handle_messages`, apart from what handling a message does. */
    method HandleMessages()
      requires Valid()
      modifies `flight, `handled, pool, queue`calls, queue.input, queue.output, made`link
      ensures Valid() && queue.Queue() == [] && handled == sent == old(sent) && flight == old(flight)
      ensures |pool.s| == |old(pool.s)| + |old(queue.Queue())|
    {
      hide Valid, Content, Fifo.Queue;
      FlightMade();
      var m := Get();
      while m != null
        invariant Valid() && sent == old(sent)
        invariant m == null ==> queue.Queue() == [] && flight == old(flight)
        invariant m != null ==> m in flight && m !in old(flight) && flight == old(flight) + {m}
        invariant |pool.s| + |queue.Queue()| + (if m == null then 0 else 1) == |old(pool.s)| + |old(queue.Queue())|
        decreases |queue.Queue()|, m != null
      {
        FlightMade();
        Delete(m);
        FlightMade();
        m := Get();
      }
      AllHandled();
    }

    lemma AllHandled()
      requires Valid() && queue.Queue() == []
      ensures handled == sent
    {
    }

    /** What was handled is in order when what was sent is. */
    lemma HandledInOrder()
      requires Valid() && Announced(sent)
      ensures Announced(handled)
    {
      AnnouncedPrefix(handled, Contents(queue.Queue()));
    }
  }
}
