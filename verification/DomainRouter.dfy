/** The listeners for domain ports other than the main and the HTTP port, reconciled with the store. */
module DomainRouters {
  import opened Records
  import opened RouteIndex
  import opened Stores

  /** TCP ports held by this router, by others, and ports the system will not give out. */
  class PortTable {
    var mine: set<int>
    var blocked: set<int>
    var ops: nat

    constructor (blocked: set<int>)
      ensures mine == {} && ops == 0 && this.blocked == blocked
    {
      mine, this.blocked, ops := {}, blocked, 0;
    }

    method Listen(p: int) returns (ok: bool)
      modifies this`mine, this`ops
      ensures ok == (p !in blocked && p !in old(mine))
      ensures mine == if ok then old(mine) + {p} else old(mine)
      ensures ops == old(ops) + 1
    {
      ok := p !in blocked && p !in mine;
      if ok {
        mine := mine + {p};
      }
      ops := ops + 1;
    }

    method Close(p: int)
      requires p in mine
      modifies this`mine, this`ops
      ensures mine == old(mine) - {p} && ops == old(ops) + 1
    {
      mine, ops := mine - {p}, ops + 1;
    }
  }

  /** A port's listener and server; closing the server closes the listener it serves. */
  class PortServer {
    const port: int
    var open: bool

    constructor (p: int)
      ensures port == p && open
    {
      port, open := p, true;
    }

    method Stop(table: PortTable)
      requires open && port in table.mine
      modifies this`open, table`mine, table`ops
      ensures !open && table.mine == old(table.mine) - {port}
    {
      open := false;
      table.Close(port);
    }
  }

  method StartPort(p: int, table: PortTable) returns (ps: PortServer?)
    modifies table`mine, table`ops
    ensures (ps != null) == (p !in table.blocked && p !in old(table.mine))
    ensures ps != null ==> fresh(ps) && ps.port == p && ps.open
    ensures table.mine == if ps != null then old(table.mine) + {p} else old(table.mine)
  {
    var ok := table.Listen(p);
    if !ok {
      return null;
    }
    ps := new PortServer(p);
  }

  /** The ports served after one reconciliation that wants `want`, when the system refuses `refused`. */
  function Reconcile(active: set<int>, want: set<int>, refused: set<int>): set<int> {
    (active * want) + (want - refused)
  }

  class DomainRouter {
    const store: Store
    const mainPort: int
    const httpPort: int
    const table: PortTable
    var active: map<int, PortServer>

    ghost predicate Valid()
      reads this, table, active.Values
    {
      && table.mine == active.Keys
      && (forall p | p in active :: active[p].port == p && active[p].open)
    }

    /** The ports to listen on, according to an index. */
    function Desired(index: DomIndex): set<int> {
      index.Keys - {mainPort, httpPort}
    }

    /** Read off the configured domains: the ports of enabled forwards that are not served elsewhere. */
    lemma DesiredExactly(ds: seq<Domain>, p: int)
      ensures p in Desired(DomainsIndex(Entries(ds))) <==>
              && p != mainPort && p != httpPort
              && exists d, f | d in ds && f in d.forwards :: f.enabled && f.port == p
    {
      PortsAreEnabledPorts(ds, p);
    }

    constructor (store: Store, mainPort: int, httpPort: int, table: PortTable)
      requires table.mine == {}
      ensures Valid() && active == map[]
      ensures this.store == store && this.mainPort == mainPort && this.httpPort == httpPort && this.table == table
    {
      this.store, this.mainPort, this.httpPort, this.table, active := store, mainPort, httpPort, table, map[];
    }

    method StopUnwanted(want: set<int>)
      requires Valid()
      modifies this`active, active.Values, table`mine, table`ops
      ensures Valid()
      ensures active.Keys == old(active).Keys * want
      ensures forall p | p in active :: active[p] == old(active)[p]
      ensures old(active).Keys <= want ==> table.ops == old(table.ops)
    {
      var todo: set<int> := active.Keys;
      while todo != {}
        invariant Valid() && todo <= active.Keys <= old(active).Keys
        invariant forall p | p in active :: active[p] == old(active)[p]
        invariant active.Keys == old(active).Keys * (want + todo)
        invariant old(active).Keys <= want ==> table.ops == old(table.ops)
      {
        ghost var some := Member(todo);
        var p :| p in todo;
        todo := todo - {p};
        if p !in want {
          active[p].Stop(table);
          active := active - {p};
        }
      }
    }

    method StartWanted(want: set<int>)
      requires Valid() && active.Keys <= want
      modifies this`active, table`mine, table`ops
      ensures Valid()
      ensures active.Keys == old(active).Keys + (want - table.blocked)
      ensures forall p | p in old(active) :: active[p] == old(active)[p]
      ensures want <= old(active).Keys ==> table.ops == old(table.ops)
    {
      var todo := want;
      while todo != {}
        invariant Valid() && todo <= want && old(active).Keys <= active.Keys
        invariant active.Keys == old(active).Keys + (want - todo - table.blocked)
        invariant forall p | p in old(active) :: active[p] == old(active)[p]
        invariant want <= old(active).Keys ==> table.ops == old(table.ops)
      {
        ghost var some := Member(todo);
        var p :| p in todo;
        todo := todo - {p};
        if p !in active {
          var ps := StartPort(p, table);
          if ps != null {
            active := active[p := ps];
          }
        }
      }
    }

    /**
     One reconciliation: exactly the desired ports are served, but for those the system refuses; ports
     that stay desired keep their server, and nothing is touched when nothing has to change.
     */
    method Apply()
      requires Valid()
      modifies this`active, active.Values, table`mine, table`ops
      ensures Valid()
      ensures var want := Desired(store.compiledDom);
        && active.Keys == Reconcile(old(active).Keys, want, table.blocked)
        && (forall p | p in old(active) && p in want :: active[p] == old(active)[p])
        && (old(active).Keys == want ==> active == old(active) && table.ops == old(table.ops))
    {
      var want := store.DomainPorts() - {mainPort, httpPort};
      StopUnwanted(want);
      StartWanted(want);
    }

    method Shutdown()
      requires Valid()
      modifies this`active, active.Values, table`mine, table`ops
      ensures Valid() && active == map[] && table.mine == {}
    {
      StopUnwanted({});
    }
  }
}
