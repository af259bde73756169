/** The idle connections of a process: a fixed array used as a stack, touched under the cache mutex only. */
module RedisIdle {
  import opened Options

  const POOL_MAX: nat := 16

  /** A hiredis connection. */
  type Handle = nat

  datatype Taken = Taken(handle: Option<Handle>, idle: seq<Handle>)

  /** Check out the connection that was put back last. */
  function Take(idle: seq<Handle>): Taken {
    if idle == [] then Taken(None, []) else Taken(Some(idle[|idle| - 1]), idle[..|idle| - 1])
  }

  predicate HasRoom(idle: seq<Handle>) { |idle| < POOL_MAX }

  class IdlePool {
    const idle: array<Handle>
    var idleNum: nat

    ghost predicate Valid()
      reads this
    {
      idle.Length == POOL_MAX && idleNum <= POOL_MAX
    }

    ghost function Contents(): seq<Handle>
      requires Valid()
      reads this, idle
    {
      idle[..idleNum]
    }

    constructor ()
      ensures Valid() && fresh(idle) && Contents() == []
    {
      idle := new Handle[POOL_MAX](_ => 0);
      idleNum := 0;
    }

    method CheckOut() returns (h: Option<Handle>)
      requires Valid()
      modifies this
      ensures Valid() && Taken(h, Contents()) == Take(old(Contents()))
      ensures if old(Contents()) == [] then h == None && Contents() == []
              else h.Some? && old(Contents()) == Contents() + [h.value]
    {
      h := None;
      if idleNum > 0 {
        idleNum := idleNum - 1;
        h := Some(idle[idleNum]);
      }
    }

    method PutBack(h: Handle) returns (kept: bool)
      requires Valid()
      modifies this, idle
      ensures Valid() && kept == (|old(Contents())| < 16) == HasRoom(old(Contents()))
      ensures Contents() == if kept then old(Contents()) + [h] else old(Contents())
    {
      kept := idleNum < POOL_MAX;
      if kept {
        idle[idleNum] := h;
        idleNum := idleNum + 1;
      }
    }

    /** Empty the pool; the connections to free come out last one first. */
    method Drain() returns (freed: seq<Handle>)
      requires Valid()
      modifies this
      ensures Valid() && Contents() == [] && multiset(freed) == multiset(old(Contents()))
    {
      freed := [];
      while idleNum > 0
        invariant Valid() && idleNum <= old(idleNum)
        invariant multiset(freed) + multiset(idle[..idleNum]) == multiset(old(Contents()))
      {
        idleNum := idleNum - 1;
        freed := freed + [idle[idleNum]];
        assert idle[..idleNum + 1] == idle[..idleNum] + [idle[idleNum]];
      }
    }
  }
}
