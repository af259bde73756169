/**
 * Executing one Redis command with retries. In serialized mode the caller holds the one mutex around
 * the shared connection; it is given up while waiting before a retry, and getting it back may fail.
 */
module RedisExec {
  import opened Options

  datatype Kind = Nil | Str | Error | Other

  /** A reply of the server; str is NULL or a string. */
  datatype Reply = Reply(kind: Kind, str: Option<string>, len: nat)

  /**
   * What the outside world answers: whether the n-th attempt to lock succeeds and in which state other
   * threads have left the shared connection by then; whether the n-th attempt to get a connection
   * succeeds; the reply to the n-th command and whether the connection breaks over it.
   */
  datatype World = World(lock: nat -> bool, shared: nat -> bool, open: nat -> bool,
                         answer: nat -> Option<Reply>, breaks: nat -> bool)

  /** What a lookup reports: its status and the value found. */
  datatype Outcome = Outcome(rv: bool, value: Option<string>)

  const FAILURE := Outcome(false, None)

  /** A miss is a success without a value; anything but a well-formed string is a failure. */
  function Lookup(reply: Reply): Outcome {
    match reply.kind
    case Nil => Outcome(true, None)
    case Str => if reply.str.Some? && reply.len == |reply.str.value| then Outcome(true, reply.str) else FAILURE
    case _ => FAILURE
  }

  /** How often a command is tried at most. */
  function Tries(retries: int): (n: nat)
    ensures retries >= 0 ==> n == retries
    ensures retries < 0 ==> n == 0
  {
    if retries < 0 then 0 else retries
  }

  class Context {
    const world: World
    const requestScoped: bool
    /** The mutex is held by this thread; misuse records an unlock without holding it, or a lock while holding it. */
    var held: bool
    var misuse: bool
    /** The connection to use is open. */
    var connected: bool
    /** How often a connection was asked for, and each of the world's functions. */
    var tries: nat
    var locks: nat
    var opens: nat
    var commands: nat
    /** Replies received (numbered by command), and those freed; doubleFree records a second free. */
    var received: set<nat>
    var freed: set<nat>
    var doubleFree: bool

    constructor (world: World, requestScoped: bool)
      ensures !held && !misuse && Clean()
    {
      this.world, this.requestScoped := world, requestScoped;
      held, misuse, connected, doubleFree := false, false, false, false;
      tries, locks, opens, commands := 0, 0, 0, 0;
      received, freed := {}, {};
    }

    /** Every reply received so far was freed, none twice. */
    ghost predicate Clean()
      reads this
    {
      !doubleFree && freed == received && forall n :: n in received ==> n < commands
    }

    /** The n-th command got nothing usable: no reply or an error reply. */
    predicate Failed(n: nat)
      ensures world.answer(n) == None ==> Failed(n)
      ensures world.answer(n).Some? ==> (Failed(n) <==> world.answer(n).value.kind == Error)
    {
      var r := world.answer(n);
      r == None || r.value.kind == Error
    }

    ghost predicate AllFailed(from: nat, to: nat) {
      forall n :: from <= n < to ==> Failed(n)
    }

    /** Why a command may not get through: all tries were used up, or the mutex could not be taken. */
    ghost predicate GaveUp(tries0: nat, locks0: nat, commands0: nat, retries: int)
      reads this
    {
      && AllFailed(commands0, commands)
      && (tries == tries0 + Tries(retries) || (!requestScoped && locks0 < locks && !world.lock(locks - 1)))
    }

    /** The last command got through, after failed ones only. */
    ghost predicate GotThrough(commands0: nat)
      reads this
    {
      commands0 < commands && !Failed(commands - 1) && AllFailed(commands0, commands - 1)
    }

    method Lock() returns (ok: bool)
      modifies this`held, this`misuse, this`locks, this`connected
      ensures ok == world.lock(old(locks)) && locks == old(locks) + 1
      ensures held == (ok || old(held)) && misuse == (old(misuse) || old(held))
    {
      misuse := misuse || held;
      ok := world.lock(locks);
      if ok {
        connected := world.shared(locks);
      }
      locks := locks + 1;
      held := held || ok;
    }

    method Unlock()
      modifies this`held, this`misuse
      ensures !held && misuse == (old(misuse) || !old(held))
    {
      misuse := misuse || !held;
      held := false;
    }

    method Connect() returns (ok: bool)
      modifies this`connected, this`opens, this`tries
      ensures ok == connected && tries == old(tries) + 1
      ensures connected == (old(connected) || world.open(old(opens)))
      ensures opens == old(opens) + if old(connected) then 0 else 1
    {
      tries := tries + 1;
      if !connected {
        connected := world.open(opens);
        opens := opens + 1;
      }
      ok := connected;
    }

    /** Send the command and wait for its reply; a request drops its own connection once it breaks. */
    method Command() returns (reply: Option<Reply>)
      modifies this`commands, this`received, this`connected
      ensures !old(connected) ==> reply == None && commands == old(commands) && received == old(received)
      ensures old(connected) ==> reply == world.answer(old(commands)) && commands == old(commands) + 1
      ensures received == old(received) + if reply.Some? then {old(commands)} else {}
    {
      if !connected {
        return None;
      }
      reply := world.answer(commands);
      if reply.Some? {
        received := received + {commands};
      }
      if requestScoped && world.breaks(commands) {
        connected := false;
      }
      commands := commands + 1;
    }

    /** Free the reply of the n-th command, if there is one. */
    method ReplyFree(reply: Option<Reply>, n: int)
      requires reply.Some? ==> 0 <= n
      modifies this`freed, this`doubleFree
      ensures freed == old(freed) + if reply.Some? then {n} else {}
      ensures doubleFree == (old(doubleFree) || (reply.Some? && n in old(freed)))
    {
      if reply.Some? {
        doubleFree := doubleFree || n in freed;
        freed := freed + {n};
      }
    }

    /** Close the shared connection; a request's own one is not touched here. */
    method Disconnect()
      modifies this`connected
      ensures connected == (requestScoped && old(connected))
    {
      if !requestScoped {
        connected := false;
      }
    }

    /** Wait before a retry; the serialized caller's mutex is released meanwhile and then taken again. */
    method Backoff() returns (ok: bool)
      requires held == !requestScoped && !misuse
      modifies this`held, this`misuse, this`locks, this`connected
      ensures !misuse && held == (ok && !requestScoped)
      ensures requestScoped ==> ok && locks == old(locks)
      ensures !requestScoped ==> ok == world.lock(old(locks)) && locks == old(locks) + 1
    {
      ok := true;
      if !requestScoped {
        Unlock();
        ok := Lock();
      }
    }

    /**
     * Try to get the command through, reconnecting, at most `retries` times. The reply (that of the
     * last command sent) is still to be freed by the caller; all others have been. The caller also
     * learns whether the mutex it held is still held.
     */
    method Exec(retries: int) returns (reply: Option<Reply>, mutexHeld: bool)
      requires held == !requestScoped && !misuse && Clean()
      modifies this
      ensures tries <= old(tries) + Tries(retries) && old(opens) <= opens <= old(opens) + Tries(retries)
      ensures old(commands) <= commands <= old(commands) + Tries(retries)
      ensures old(locks) <= locks && (locks == old(locks) || locks < old(locks) + retries)
      ensures reply == None ==> Clean() && GaveUp(old(tries), old(locks), old(commands), retries)
      ensures reply.Some? ==> GotThrough(old(commands)) && reply == world.answer(commands - 1)
      ensures reply.Some? ==> commands - 1 !in freed && received == freed + {commands - 1}
      ensures !doubleFree && forall n :: n in received ==> n < commands
      ensures !misuse && held == (mutexHeld && !requestScoped) && (reply.Some? ==> mutexHeld)
      ensures reply.Some? ==> reply.value.kind != Error
      // a shared connection over which the last try failed is not left open
      ensures reply == None && mutexHeld && !requestScoped && retries >= 1 ==> !connected
    {
      reply, mutexHeld := None, true;
      var i := 1;
      while i <= retries
        invariant 1 <= i <= Tries(retries) + 1 && tries == old(tries) + (i - 1)
        invariant old(opens) <= opens <= old(opens) + (i - 1) && old(commands) <= commands <= old(commands) + (i - 1)
        invariant old(locks) <= locks <= old(locks) + (i - 1) && (locks == old(locks) || locks < old(locks) + retries)
        invariant reply == None && mutexHeld && held == !requestScoped && !misuse && Clean()
        invariant AllFailed(old(commands), commands) && (i > retries >= 1 && !requestScoped ==> !connected)
      {
        var ok := Connect();
        if !ok {
          if i < retries {
            var relocked := Backoff();
            if !relocked {
              return None, false;
            }
          }
        } else {
          reply := Command();
          if reply.Some? && reply.value.kind != Error {
            return;
          }
          ReplyFree(reply, commands - 1);
          reply := None;
          Disconnect();
        }
        i := i + 1;
      }
    }

    /** Look up a value. The mutex is free afterwards, and was not released while it was not held. */
    method Get(retries: int) returns (rv: bool, value: Option<string>)
      requires !held && !misuse && Clean()
      modifies this
      ensures !held && !misuse && Clean()
      ensures commands <= old(commands) + Tries(retries)
      ensures
        || (Outcome(rv, value) == FAILURE && GaveUp(old(tries), old(locks), old(commands), retries))
        || (GotThrough(old(commands)) && Outcome(rv, value) == Lookup(world.answer(commands - 1).value))
      // so a lookup finds the string, or nothing, that the first usable reply brings
      ensures value.Some? ==> rv
      ensures rv ==> commands > old(commands) && world.answer(commands - 1).Some?
      ensures commands > old(commands) && world.answer(commands - 1).Some? ==>
                var reply := world.answer(commands - 1).value;
                && (reply.kind == Nil ==> rv && value == None)
                && (reply.kind == Str && reply.str.Some? && |reply.str.value| == reply.len ==> rv && value == reply.str)
                && (reply.kind == Str && (reply.str == None || |reply.str.value| != reply.len) ==> !rv)
                && (reply.kind == Error || reply.kind == Other ==> !rv)
    {
      rv, value := false, None;
      if !requestScoped {
        var ok := Lock();
        if !ok {
          return;
        }
      }
      var reply, mutexHeld := Exec(retries);
      assert reply == None && commands > old(commands) ==> Failed(commands - 1);
      if reply.Some? {
        if reply.value.kind == Nil {
          rv := true;
        } else if reply.value.kind == Str && reply.value.str.Some? && reply.value.len == |reply.value.str.value| {
          value := reply.value.str;
          rv := true;
        }
      }
      ReplyFree(reply, commands - 1);
      if !requestScoped && mutexHeld {
        Unlock();
      }
    }

    /** Store or delete a value: TRUE exactly when the command got through. */
    method Set(retries: int) returns (rv: bool)
      requires !held && !misuse && Clean()
      modifies this
      ensures !held && !misuse && Clean()
      ensures commands <= old(commands) + Tries(retries)
      ensures if rv then GotThrough(old(commands)) else GaveUp(old(tries), old(locks), old(commands), retries)
      ensures rv <==> commands > old(commands) && world.answer(commands - 1).Some?
                      && world.answer(commands - 1).value.kind != Error
    {
      rv := false;
      if !requestScoped {
        var ok := Lock();
        if !ok {
          return;
        }
      }
      var reply, mutexHeld := Exec(retries);
      assert reply == None && commands > old(commands) ==> Failed(commands - 1);
      rv := reply.Some? && reply.value.kind != Error;
      ReplyFree(reply, commands - 1);
      if !requestScoped && mutexHeld {
        Unlock();
      }
    }
  }
}
