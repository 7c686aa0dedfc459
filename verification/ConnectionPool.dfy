/** The pool of benchmarks/client.py as an object: a queue of idle connections. One call at a time is
    followed here; interleavings of many threads are the subject of PoolProtocol. */
module ConnectionPool {
  import opened Bytes
  import opened Replies
  import opened Client

  class VeltrixDBPool {
    const maxsize: nat
    var pool: seq<VeltrixDBClient>

    ghost predicate Valid()
      reads this, pool
    {
      && |pool| <= maxsize
      && (forall i, j :: 0 <= i < j < |pool| ==> pool[i] != pool[j])
      && (forall c <- pool :: c.Valid())
    }

    /** No idle connection has reply bytes waiting that nobody asked for. */
    ghost predicate InStep()
      reads this, pool
    {
      forall c <- pool :: Ready(c.incoming) == []
    }

    constructor (poolSize: nat)
      ensures Valid() && InStep()
      ensures maxsize == poolSize == |pool|
    {
      maxsize := poolSize;
      pool := [];
      new;
      for i := 0 to poolSize
        invariant |pool| == i && Valid() && InStep()
        invariant forall c <- pool :: fresh(c)
      {
        var c := new VeltrixDBClient();
        pool := pool + [c];
      }
    }

    /** The head of the queue, or an error when none is idle in time. */
    method Acquire() returns (r: Result<VeltrixDBClient>)
      requires Valid() && InStep()
      modifies this`pool
      ensures Valid() && InStep()
      ensures old(pool) == [] ==> r == Raised(PoolExhausted) && pool == []
      ensures old(pool) != [] ==> r == Ok(old(pool)[0]) && pool == old(pool)[1..] && old(pool)[0] !in pool
    {
      if pool == [] {
        return Raised(PoolExhausted);
      }
      r := Ok(pool[0]);
      pool := pool[1..];
    }

    /** The normal exit of acquire(): the put on a queue that has room. */
    method Release(c: VeltrixDBClient)
      requires Valid() && InStep() && |pool| < maxsize
      requires c !in pool && c.Valid() && Ready(c.incoming) == []
      modifies this`pool
      ensures Valid() && InStep() && pool == old(pool) + [c]
    {
      pool := pool + [c];
    }

    /** The exceptional exit: the connection is closed, never put back; a new one takes its place if
        dialling succeeds and the queue has room. */
    method Replace(redial: bool)
      requires Valid() && InStep()
      modifies this`pool
      ensures Valid() && InStep() && old(pool) <= pool
      ensures forall c <- pool[old(|pool|)..] :: fresh(c)
      ensures |pool| == if redial && old(|pool|) < maxsize then old(|pool|) + 1 else old(|pool|)
    {
      if redial {
        var c := new VeltrixDBClient();
        if |pool| < maxsize {
          pool := pool + [c];
        }
      }
    }

    /** execute(call): while the call reads, some prefix of one well-formed reply arrives, in any
        pieces and with failures anywhere. Whatever happens, the idle connections stay in step; a normal
        return is the answer to this call's own request; a full reply yields exactly its result. */
    method Execute(op: Op, arrivals: seq<Arrival>, redial: bool, ghost reply: Reply) returns (r: Result<Answer>)
      requires Valid() && InStep() && Answers(op, reply, arrivals)
      modifies this`pool, pool
      ensures Valid() && InStep()
      ensures old(pool) == [] ==> r == Raised(PoolExhausted) && pool == []
      ensures old(pool) != [] && r.Ok? ==> pool == old(pool)[1..] + [old(pool)[0]]
      ensures old(pool) != [] && r.Raised? ==>
                old(pool)[1..] <= pool && old(pool)[0] !in pool
                && |pool| == if redial then old(|pool|) else old(|pool|) - 1
      ensures old(pool) != [] && !Sends(op) ==> r.Ok?
      ensures Sends(op) && r.Ok? ==> r == Expected(op, reply)
      ensures old(pool) != [] && Sends(op) && FrameOf(op).Some? && old(pool[0].incoming) == [] ==>
                Ready(arrivals) == ReplyFrame(reply) ==> r == Expected(op, reply)
    {
      var conn := Acquire();
      if conn.Raised? {
        return Raised(conn.error);
      }
      var c := conn.value;
      r := CallAnswered(c, op, arrivals, reply);
      assert Valid() && InStep();
      if r.Ok? {
        Release(c);
      } else {
        ghost var rest := pool;
        Replace(redial);
        assert forall i :: 0 <= i < |pool| ==> if i < |rest| then pool[i] == rest[i] else pool[i] in pool[|rest|..];
      }
    }
  }

  /** What arrives during a call is a prefix of one well-formed reply to it. */
  ghost predicate Answers(op: Op, reply: Reply, arrivals: seq<Arrival>) {
    && NonemptyChunks(arrivals)
    && (Sends(op) ==> WellFormed(op, reply) && Ready(arrivals) <= ReplyFrame(reply))
    && (!Sends(op) ==> arrivals == [])
  }

  /** One call on a connection in step: it returns normally only with the whole of its own reply
      read, and then the connection is in step again. */
  method CallAnswered(c: VeltrixDBClient, op: Op, arrivals: seq<Arrival>, ghost reply: Reply)
    returns (r: Result<Answer>)
    requires c.Valid() && Ready(c.incoming) == [] && Answers(op, reply, arrivals)
    modifies c
    ensures c.Valid()
    ensures r.Ok? ==> Ready(c.incoming) == []
    ensures !Sends(op) ==> r.Ok?
    ensures Sends(op) && r.Ok? ==> r == Expected(op, reply)
    ensures Sends(op) && FrameOf(op).Some? && old(c.incoming) == [] && Ready(arrivals) == ReplyFrame(reply) ==>
              r == Expected(op, reply)
  {
    ghost var stale := c.incoming;
    c.Deliver(arrivals);
    ReadyAfterNothing(stale, arrivals);
    ghost var s := Ready(c.incoming);
    if Sends(op) {
      CallOutcomes(op, reply, s);
    } else {
      assert stale + arrivals == stale;
    }
    r := c.Call(op);
  }

  /** What a reader can make of a prefix s of a reply: a normal result needs all of it and leaves
      nothing; all of it gives its result. */
  lemma CallOutcomes(op: Op, reply: Reply, s: bytes)
    requires WellFormed(op, reply) && s <= ReplyFrame(reply)
    ensures Read(op, s).Some? && Read(op, s).value.0.Ok? ==> Read(op, s) == Some((Expected(op, reply), []))
    ensures s == ReplyFrame(reply) ==> Read(op, s).Some? && Read(op, s).value.0 == Expected(op, reply)
  {
    if Read(op, s).Some? && Read(op, s).value.0.Ok? {
      NormalReturnNeedsWholeReply(op, reply, s);
    }
    ReadInverts(op, reply, []);
    assert ReplyFrame(reply) + [] == ReplyFrame(reply);
  }
}
