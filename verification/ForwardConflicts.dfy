/** How far the store's textual check of listen addresses protects the forwarder. */
module ForwardConflicts {
  import opened Records
  import opened KeyedLists
  import opened Sockets
  import opened Forwarders
  import opened Validation
  import opened Stores

  ghost predicate StoredForwards(fs: seq<Forward>) {
    && UniqueKeys(fs, ForwardKey)
    && NoClash(fs, SameListen)
    && forall f | f in fs :: f.proto in {"tcp", "udp", "tcp+udp"}
  }

  /** No two enabled forwards want the same socket. */
  ghost predicate SocketsApart(fs: seq<Forward>) {
    forall i, j | 0 <= i < |fs| && 0 <= j < |fs| && i != j && fs[i].enabled && fs[j].enabled ::
      SocksOf(fs[i]) !! SocksOf(fs[j])
  }

  /** A two-protocol forward and a one-protocol forward are enabled on one listen address. */
  ghost predicate MixedPair(fs: seq<Forward>, i: nat, j: nat) {
    && i < |fs| && j < |fs| && fs[i].enabled && fs[j].enabled
    && fs[i].proto == "tcp+udp" && fs[j].proto != "tcp+udp" && fs[i].listen == fs[j].listen
  }

  /**
   What the store accepts can still want one socket twice, because it compares the protocols as text.
   That happens exactly when a "tcp+udp" forward shares its listen text with a plain one.
   */
  lemma TextCheckSufficesExactly(fs: seq<Forward>)
    requires StoredForwards(fs)
    ensures SocketsApart(fs) <==> forall i: nat, j: nat :: !MixedPair(fs, i, j)
  {
    forall i: nat, j: nat | MixedPair(fs, i, j)
      ensures !SocketsApart(fs)
    {
      assert fs[j] in fs;
      var s := Sock(if fs[j].proto == "tcp" then Tcp else Udp, fs[j].listen);
      assert s in SocksOf(fs[i]) && s in SocksOf(fs[j]);
    }
    if forall i: nat, j: nat :: !MixedPair(fs, i, j) {
      forall i, j | 0 <= i < |fs| && 0 <= j < |fs| && i != j && fs[i].enabled && fs[j].enabled
        ensures SocksOf(fs[i]) !! SocksOf(fs[j])
      {
        assert fs[i] in fs && fs[j] in fs;
        assert !MixedPair(fs, i, j) && !MixedPair(fs, j, i);
        assert !SameListen(fs[i], fs[j]);
      }
    }
  }

  predicate SharesNet(a: Forward, b: Forward) {
    (WantsTcp(a) && WantsTcp(b)) || (WantsUdp(a) && WantsUdp(b))
  }

  /** Two spellings of addresses that the system will not bind together, such as ":2222" and "0.0.0.0:2222". */
  ghost predicate SpelledApart(fs: seq<Forward>, env: Env, i: nat, j: nat) {
    && i < |fs| && j < |fs| && fs[i].enabled && fs[j].enabled && SharesNet(fs[i], fs[j])
    && fs[i].listen != fs[j].listen && env.clash(fs[i].listen, fs[j].listen)
  }

  lemma SharedNetClashes(f: Forward, g: Forward, env: Env)
    ensures (exists s, t | s in SocksOf(f) && t in SocksOf(g) :: env.Clashes(s, t)) <==>
            SharesNet(f, g) && env.clash(f.listen, g.listen)
  {
    if SharesNet(f, g) && env.clash(f.listen, g.listen) {
      var net := if WantsTcp(f) && WantsTcp(g) then Tcp else Udp;
      assert Sock(net, f.listen) in SocksOf(f) && Sock(net, g.listen) in SocksOf(g);
      assert env.Clashes(Sock(net, f.listen), Sock(net, g.listen));
    }
  }

  /** Stored forwards share both a protocol and a listen text exactly as mixed pairs. */
  lemma SameTextIsMixed(fs: seq<Forward>, i: nat, j: nat)
    requires StoredForwards(fs) && i < |fs| && j < |fs| && i != j && fs[i].enabled && fs[j].enabled
    ensures SharesNet(fs[i], fs[j]) && fs[i].listen == fs[j].listen <==> MixedPair(fs, i, j) || MixedPair(fs, j, i)
  {
    assert fs[i] in fs && fs[j] in fs;
    assert !SameListen(fs[i], fs[j]);
  }

  lemma PairFitsExactly(fs: seq<Forward>, env: Env, i: nat, j: nat)
    requires StoredForwards(fs) && env.Symmetric()
    requires i < |fs| && j < |fs| && i != j && fs[i].enabled && fs[j].enabled
    ensures (forall s, t | s in SocksOf(fs[i]) && t in SocksOf(fs[j]) :: !env.Clashes(s, t)) <==>
            !MixedPair(fs, i, j) && !MixedPair(fs, j, i) && !SpelledApart(fs, env, i, j)
  {
    SharedNetClashes(fs[i], fs[j], env);
    SameTextIsMixed(fs, i, j);
    assert env.Clashes(Sock(Tcp, fs[i].listen), Sock(Tcp, fs[i].listen));
  }

  /**
   Which stored forwards can run together, whatever addresses the system takes to clash: if each could
   run alone, all can at once exactly if no mixed pair and no clashing spellings are enabled.
   */
  lemma StoredForwardsCanRun(fs: seq<Forward>, env: Env)
    requires StoredForwards(fs) && env.Symmetric()
    requires forall f | f in fs && f.enabled :: Startable(f, {}, env)
    ensures Satisfiable(fs, env) <==>
            forall i: nat, j: nat :: !MixedPair(fs, i, j) && !SpelledApart(fs, env, i, j)
  {
    if Satisfiable(fs, env) {
      forall i: nat, j: nat
        ensures !MixedPair(fs, i, j) && !SpelledApart(fs, env, i, j)
      {
        if MixedPair(fs, i, j) || SpelledApart(fs, env, i, j) {
          assert fs[i] in fs && fs[j] in fs && fs[i] != fs[j];
          PairFitsExactly(fs, env, i, j);
        }
      }
    }
    if forall i: nat, j: nat :: !MixedPair(fs, i, j) && !SpelledApart(fs, env, i, j) {
      forall f, g, s, t | f in fs && g in fs && f.enabled && g.enabled && f != g && s in SocksOf(f) && t in SocksOf(g)
        ensures !env.Clashes(s, t)
      {
        var i: nat :| i < |fs| && fs[i] == f;
        var j: nat :| j < |fs| && fs[j] == g;
        PairFitsExactly(fs, env, i, j);
      }
    }
  }

  /// Both kinds of pair do get past the check.

  function Plain(name: string, proto: string, listen: string): Forward {
    Forward(name, proto, listen, "10.8.0.5:22", false, "", true)
  }

  lemma Accepted(f: Forward, g: Forward)
    requires f.name != g.name && !SameListen(f, g)
    requires f.proto in {"tcp", "udp", "tcp+udp"} && g.proto in {"tcp", "udp", "tcp+udp"}
    ensures Upserted([], ForwardKey, SameListen, "", f) == Ok([f])
    ensures Upserted([f], ForwardKey, SameListen, "", g) == Ok([f, g])
    ensures StoredForwards([f, g])
  {
    assert [] + [f] == [f] && [f] + [g] == [f, g];
  }

  /** One port in two spellings is added twice, and then the two cannot run together. */
  lemma SpellingsAreMissed(env: Env) returns (f: Forward, g: Forward)
    requires env.Symmetric() && env.clash(":2222", "0.0.0.0:2222")
    ensures f == Plain("a", "tcp", ":2222") && g == Plain("b", "tcp", "0.0.0.0:2222")
    ensures Upserted([f], ForwardKey, SameListen, "", g) == Ok([f, g]) && StoredForwards([f, g])
    ensures SpelledApart([f, g], env, 0, 1) && !Satisfiable([f, g], env)
  {
    f, g := Plain("a", "tcp", ":2222"), Plain("b", "tcp", "0.0.0.0:2222");
    assert f.name[0] != g.name[0] && f.listen[0] != g.listen[0];
    Accepted(f, g);
    PairFitsExactly([f, g], env, 0, 1);
    assert f in [f, g] && g in [f, g];
  }

  /** So are a two-protocol forward and a plain one on the same text. */
  lemma MixedPairsAreMissed(env: Env) returns (f: Forward, g: Forward)
    requires env.Symmetric()
    ensures f == Plain("a", "tcp+udp", ":2222") && g == Plain("b", "tcp", ":2222")
    ensures Upserted([f], ForwardKey, SameListen, "", g) == Ok([f, g]) && StoredForwards([f, g])
    ensures MixedPair([f, g], 0, 1) && !Satisfiable([f, g], env)
  {
    f, g := Plain("a", "tcp+udp", ":2222"), Plain("b", "tcp", ":2222");
    assert f.name[0] != g.name[0] && |f.proto| != |g.proto|;
    Accepted(f, g);
    PairFitsExactly([f, g], env, 0, 1);
    assert f in [f, g] && g in [f, g];
  }

  /** A plain forward passes validation as it is. */
  lemma PlainIsValid(name: string, proto: string, listen: string)
    requires PrefixOK(name) && proto in {"tcp", "udp", "tcp+udp"}
    requires listen != "" && listen[0] in ":0" && listen[|listen| - 1] == '2' && ':' in listen
    ensures ValidForward(Plain(name, proto, listen), PlusPortLibrary()) == Some(Plain(name, proto, listen))
  {
    TrimNothing(listen, c => IsSpace(c));
    TrimNothing("10.8.0.5:22", c => IsSpace(c));
    ForwardUnchanged(Plain(name, proto, listen), PlusPortLibrary());
  }

  method StoreBoth(f: Forward, g: Forward) returns (s: Store)
    requires ValidForward(f, PlusPortLibrary()) == Some(f) && ValidForward(g, PlusPortLibrary()) == Some(g)
    requires Upserted([], ForwardKey, SameListen, "", f) == Ok([f])
    requires Upserted([f], ForwardKey, SameListen, "", g) == Ok([f, g])
    ensures fresh(s) && s.Valid() && s.Memory().forwards == [f, g] && s.disk == s.Memory()
  {
    s := new Store(PlusPortLibrary());
    var r, fire := s.UpsertForward("", f, true);
    r, fire := s.UpsertForward("", g, true);
  }

  /** Both pairs reach the store: two additions one after the other, and both succeed. */
  method PairIsStored(spellings: bool) returns (s: Store, f: Forward, g: Forward)
    ensures s.Valid() && s.Memory().forwards == [f, g] && s.disk == s.Memory()
    ensures f == if spellings then Plain("a", "tcp", ":2222") else Plain("a", "tcp+udp", ":2222")
    ensures g == if spellings then Plain("b", "tcp", "0.0.0.0:2222") else Plain("b", "tcp", ":2222")
  {
    f := if spellings then Plain("a", "tcp", ":2222") else Plain("a", "tcp+udp", ":2222");
    g := if spellings then Plain("b", "tcp", "0.0.0.0:2222") else Plain("b", "tcp", ":2222");
    PlainIsValid(f.name, f.proto, f.listen);
    PlainIsValid(g.name, g.proto, g.listen);
    assert f.name[0] != g.name[0] && (f.listen[0] != g.listen[0] || |f.proto| != |g.proto|);
    Accepted(f, g);
    s := StoreBoth(f, g);
  }
}
