/** The host's table of listening sockets, as much of it as a reconciler can observe. */
module Sockets {
  datatype Net = Tcp | Udp

  datatype Sock = Sock(net: Net, addr: string)

  /**
   What the reconciler does not control: which listen texts cannot be bound together on one protocol,
   the sockets other programs hold, the sockets the system will not bind for reasons of its own, and
   the targets whose name does not resolve.
   */
  datatype Env = Env(
    clash: (string, string) -> bool,
    foreign: set<Sock>,
    refused: set<Sock>,
    unresolvable: set<string>)
  {
    predicate Clashes(a: Sock, b: Sock) {
      a.net == b.net && clash(a.addr, b.addr)
    }

    ghost predicate Symmetric() {
      && (forall a, b :: Clashes(a, b) ==> Clashes(b, a))
      && (forall a :: Clashes(a, a))
    }

    /** Whether s can be bound by a process that already holds `mine`. */
    predicate Free(s: Sock, mine: set<Sock>) {
      && s !in refused
      && (forall t | t in mine :: !Clashes(s, t))
      && (forall t | t in foreign :: !Clashes(s, t))
    }
  }

  /** `mine` are the sockets this process's forwards hold; `ops` counts bind and close calls. */
  class SocketTable {
    var env: Env
    var mine: set<Sock>
    var ops: nat

    ghost predicate Valid()
      reads this
    {
      env.Symmetric()
    }

    constructor (env: Env)
      requires env.Symmetric()
      ensures Valid() && mine == {} && ops == 0 && this.env == env
    {
      this.env, mine, ops := env, {}, 0;
    }

    method Bind(s: Sock) returns (ok: bool)
      requires Valid()
      modifies this`mine, this`ops
      ensures ok == env.Free(s, old(mine))
      ensures ok <==> s !in env.refused &&
                      forall t | t in old(mine) + env.foreign && t.net == s.net :: !env.clash(s.addr, t.addr)
      ensures mine == if ok then old(mine) + {s} else old(mine)
      ensures ok ==> s !in old(mine)
      ensures ops == old(ops) + 1
    {
      ops := ops + 1;
      ok := env.Free(s, mine);
      if ok {
        assert env.Clashes(s, s);
        mine := mine + {s};
      }
    }

    method Close(s: Sock)
      requires s in mine
      modifies this`mine, this`ops
      ensures mine == old(mine) - {s} && ops == old(ops) + 1
    {
      mine, ops := mine - {s}, ops + 1;
    }
  }
}
