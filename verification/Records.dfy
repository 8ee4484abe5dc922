/** Bytes and the configuration records of config.go that several components share. */
module Records {
  newtype byte = x: int | 0 <= x < 256

  datatype Option<+T> = None | Some(value: T)

  datatype Forward = Forward(
    name: string,
    proto: string,
    listen: string,
    target: string,
    proxyProto: bool,
    description: string,
    enabled: bool)

  datatype DNATRule = DNATRule(
    name: string,
    proto: string,
    listenPort: int,
    target: string,
    snat: bool,
    description: string,
    enabled: bool)

  predicate WantsTcp(fw: Forward) { fw.proto != "udp" }

  predicate WantsUdp(fw: Forward) { fw.proto == "udp" || fw.proto == "tcp+udp" }

  predicate DistinctNames(forwards: seq<Forward>) {
    forall i, j | 0 <= i < j < |forwards| :: forwards[i].name != forwards[j].name
  }

  /** A set that is not empty has a member. */
  lemma Member<T>(s: set<T>) returns (x: T)
    requires s != {}
    ensures x in s
  {
    x :| x in s;
  }
}
