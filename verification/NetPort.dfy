/** `sysm_net_stat_port_get`: the TCP connections of one port, split by side and by address. */
module NetPort {
  import opened Words
  import opened NetStat
  import opened ListenIndex

  /** The fields of a connection that the port walker reads. */
  datatype Link = Link(tcp: bool, state: nat, loPort: nat, loAddress: Address, rePort: nat, reAddress: Address)

  predicate StatesInRange(ls: seq<Link>) {
    forall l :: l in ls ==> l.state < STATES
  }

  /** `sysm_net_address_equals`, which never holds of an unspecified family. */
  predicate SameAddress(a: Address, b: Address) {
    a == b && !a.family.Unspec?
  }

  /** Two addresses are the same when their families and all their words are. */
  lemma SameAddressExact(a: Address, b: Address)
    ensures SameAddress(a, b) <==>
              && a.family == b.family && a.family != Unspec
              && |a.words| == |b.words| && forall i :: 0 <= i < |a.words| ==> a.words[i] == b.words[i]
  {
  }

  /** What a counter counts; a connection of the port with itself is inbound only. */
  datatype Side = Local | Remote | LocalHere | RemoteHere | Either | PortState(code: nat)

  predicate Matches(k: Side, l: Link, port: nat, address: Address) {
    l.tcp &&
    match k
    case Local => l.loPort == port
    case Remote => l.loPort != port && l.rePort == port
    case LocalHere => l.loPort == port && SameAddress(address, l.loAddress)
    case RemoteHere => l.loPort != port && l.rePort == port && SameAddress(address, l.reAddress)
    case Either => l.loPort == port || l.rePort == port
    case PortState(code) => (l.loPort == port || l.rePort == port) && l.state == code
  }

  function Number(k: Side, ls: seq<Link>, port: nat, address: Address): nat {
    if ls == [] then 0 else (if Matches(k, ls[0], port, address) then 1 else 0) + Number(k, ls[1..], port, address)
  }

  /** The counters so far and the records ahead together are the records of the port. */
  ghost predicate Ahead(s: Stat, ls: seq<Link>, all: seq<Link>, port: nat, address: Address) {
    && |s.states| == 14
    && s.allIn + Number(Local, ls, port, address) == Number(Local, all, port, address)
    && s.allOut + Number(Remote, ls, port, address) == Number(Remote, all, port, address)
    && s.tcpIn + Number(LocalHere, ls, port, address) == Number(LocalHere, all, port, address)
    && s.tcpOut + Number(RemoteHere, ls, port, address) == Number(RemoteHere, all, port, address)
    && forall k :: 0 <= k < STATES ==>
         s.states[k] + Number(PortState(k), ls, port, address) == Number(PortState(k), all, port, address)
  }

  /** `net_stat_port_walker`. */
  method Visit(l: Link, port: nat, address: Address, stat: Counters, ghost ls: seq<Link>, ghost all: seq<Link>)
    requires l.state < STATES && stat.states.Length == STATES
    requires ls != [] && ls[0] == l && Ahead(stat.Value(), ls, all, port, address)
    modifies stat, stat.states
    ensures Ahead(stat.Value(), ls[1..], all, port, address)
  {
    if l.tcp {
      if l.loPort == port {
        stat.allIn := stat.allIn + 1;
        if SameAddress(address, l.loAddress) {
          stat.tcpIn := stat.tcpIn + 1;
        }
      } else if l.rePort == port {
        stat.allOut := stat.allOut + 1;
        if SameAddress(address, l.reAddress) {
          stat.tcpOut := stat.tcpOut + 1;
        }
      } else {
        return;
      }
      stat.Tick(l.state);
    }
  }

  /** After the walk every counter is the number of its records. */
  method PortGet(ls: seq<Link>, port: nat, address: Address) returns (stat: Counters)
    requires StatesInRange(ls)
    ensures fresh(stat) && Ahead(stat.Value(), [], ls, port, address)
  {
    stat := new Counters();
    var rest := ls;
    while rest != []
      invariant fresh(stat) && fresh(stat.states) && stat.states.Length == STATES && StatesInRange(rest)
      invariant Ahead(stat.Value(), rest, ls, port, address)
    {
      Visit(rest[0], port, address, stat, rest, ls);
      rest := rest[1..];
    }
  }

  lemma {:induction false} LocalPlusRemote(ls: seq<Link>, port: nat, address: Address)
    ensures Number(Local, ls, port, address) + Number(Remote, ls, port, address) == Number(Either, ls, port, address)
    ensures Number(LocalHere, ls, port, address) <= Number(Local, ls, port, address)
    ensures Number(RemoteHere, ls, port, address) <= Number(Remote, ls, port, address)
  {
    if ls != [] {
      LocalPlusRemote(ls[1..], port, address);
    }
  }

  function StateCounts(ls: seq<Link>, port: nat, address: Address): (r: seq<nat>)
    ensures |r| == STATES && forall k :: 0 <= k < STATES ==> r[k] == Number(PortState(k), ls, port, address)
  {
    seq(STATES, k requires 0 <= k < STATES => Number(PortState(k), ls, port, address))
  }

  lemma {:induction false} SumZero(xs: seq<nat>)
    requires forall k :: 0 <= k < |xs| ==> xs[k] == 0
    ensures Sum(xs) == 0
  {
    if xs != [] {
      SumZero(xs[1..]);
    }
  }

  lemma {:induction false} SumOfStates(ls: seq<Link>, port: nat, address: Address)
    requires StatesInRange(ls)
    ensures Sum(StateCounts(ls, port, address)) == Number(Either, ls, port, address)
  {
    if ls == [] {
      SumZero(StateCounts(ls, port, address));
    } else {
      var l, xs := ls[0], StateCounts(ls[1..], port, address);
      SumOfStates(ls[1..], port, address);
      SumUpdate(xs, l.state, xs[l.state] + 1);
      var now := if Matches(Either, l, port, address) then xs[l.state := xs[l.state] + 1] else xs;
      assert StateCounts(ls, port, address) == now;
    }
  }

  /** Nothing is counted twice or lost: every TCP connection that names the port is in one state and
      on one side, and the counts for the address are part of those for all addresses. */
  lemma PortConserves(s: Stat, ls: seq<Link>, port: nat, address: Address)
    requires StatesInRange(ls) && Ahead(s, [], ls, port, address)
    ensures s.allIn + s.allOut == Sum(s.states) == Number(Either, ls, port, address)
    ensures s.tcpIn <= s.allIn && s.tcpOut <= s.allOut
  {
    LocalPlusRemote(ls, port, address);
    SumOfStates(ls, port, address);
    assert forall k :: 0 <= k < STATES ==> Number(PortState(k), [], port, address) == 0;
    assert s.states == StateCounts(ls, port, address);
  }
}
