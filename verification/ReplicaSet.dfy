/** `ReplicaSetMonitor`: the known nodes of a replica set, round-robin choice of a secondary, and
    reconciliation of the node list with the host list a node reports. */
module ReplicaSet {
  import opened Bytes
  import opened Sequences

  /** An address in its canonical spelling. */
  type HostAndPort = seq<int>

  datatype Node = Node(addr: HostAndPort, ok: bool, ismaster: bool, secondary: bool, hidden: bool, pingTimeMillis: int)
  {
    predicate OkForSecondaryQueries() {
      ok && secondary && !hidden
    }
  }

  /** A node just added. It counts as up even if the connection to it failed. */
  function NewNode(addr: HostAndPort): Node {
    Node(addr, true, false, false, false, 0)
  }

  /** The index of the first node of that address, from `i` on, or -1. */
  function Find(nodes: seq<Node>, addr: HostAndPort, i: nat): (at: int)
    requires i <= |nodes|
    ensures -1 <= at < |nodes|
    decreases |nodes| - i
  {
    if i == |nodes| then -1 else if nodes[i].addr == addr then i else Find(nodes, addr, i + 1)
  }

  lemma {:induction false} FindFirst(nodes: seq<Node>, addr: HostAndPort, i: nat)
    requires i <= |nodes|
    ensures var at := Find(nodes, addr, i);
      if at < 0 then forall j :: i <= j < |nodes| ==> nodes[j].addr != addr
      else i <= at < |nodes| && nodes[at].addr == addr && forall j :: i <= j < at ==> nodes[j].addr != addr
    decreases |nodes| - i
  {
    if i < |nodes| && nodes[i].addr != addr {
      FindFirst(nodes, addr, i + 1);
    }
  }

  // ----- round robin -----

  predicate Eligible(nodes: seq<Node>, master: int, i: nat)
    requires i < |nodes|
  {
    i != master && nodes[i].OkForSecondaryQueries()
  }

  function EligibleIn(nodes: seq<Node>, master: int, lo: nat, hi: nat): seq<nat>
    requires lo <= hi <= |nodes|
    decreases hi - lo
  {
    if lo == hi then []
    else (if Eligible(nodes, master, lo) then [lo] else []) + EligibleIn(nodes, master, lo + 1, hi)
  }

  lemma {:induction false} EligibleSplit(nodes: seq<Node>, master: int, lo: nat, mid: nat, hi: nat)
    requires lo <= mid <= hi <= |nodes|
    ensures EligibleIn(nodes, master, lo, hi) == EligibleIn(nodes, master, lo, mid) + EligibleIn(nodes, master, mid, hi)
    decreases mid - lo
  {
    if lo < mid {
      EligibleSplit(nodes, master, lo + 1, mid, hi);
    }
  }

  /** One node passed over. */
  lemma Passed(nodes: seq<Node>, master: int, lo: nat, mid: nat)
    requires lo <= mid < |nodes| && !Eligible(nodes, master, mid) && EligibleIn(nodes, master, lo, mid) == []
    ensures EligibleIn(nodes, master, lo, mid + 1) == []
  {
    EligibleSplit(nodes, master, lo, mid, mid + 1);
    assert EligibleIn(nodes, master, mid, mid + 1) == [];
  }

  lemma Headed(lo: nat, rest: seq<nat>)
    requires forall i :: i in rest ==> lo < i
    ensures forall i :: i in [lo] + rest <==> i == lo || i in rest
    ensures forall j :: 0 < j < |[lo] + rest| ==> ([lo] + rest)[j] == rest[j - 1] && lo < ([lo] + rest)[j]
  {
    forall i
      ensures i in [lo] + rest <==> i == lo || i in rest
    {
      assert i in [lo] + rest <==> i in [lo] || i in rest;
    }
    forall j | 0 < j < |[lo] + rest|
      ensures ([lo] + rest)[j] == rest[j - 1] && lo < ([lo] + rest)[j]
    {
      assert rest[j - 1] in rest;
    }
  }

  lemma {:induction false} EligibleInLists(nodes: seq<Node>, master: int, lo: nat, hi: nat)
    requires lo <= hi <= |nodes|
    ensures forall i :: i in EligibleIn(nodes, master, lo, hi) <==> lo <= i < hi && Eligible(nodes, master, i)
    ensures forall i, j :: 0 <= i < j < |EligibleIn(nodes, master, lo, hi)| ==>
      EligibleIn(nodes, master, lo, hi)[i] < EligibleIn(nodes, master, lo, hi)[j]
    decreases hi - lo
  {
    if lo < hi {
      EligibleInLists(nodes, master, lo + 1, hi);
      if Eligible(nodes, master, lo) {
        Headed(lo, EligibleIn(nodes, master, lo + 1, hi));
      }
    }
  }

  /** The eligible secondaries in the order they come round, from index `start` on. */
  function From(nodes: seq<Node>, master: int, start: nat): seq<nat>
    requires start <= |nodes|
  {
    EligibleIn(nodes, master, start, |nodes|) + EligibleIn(nodes, master, 0, start)
  }

  /** The round names every eligible secondary, once, and nothing else. */
  lemma FromListsEachOnce(nodes: seq<Node>, master: int, start: nat)
    requires start <= |nodes|
    ensures forall i :: i in From(nodes, master, start) <==> 0 <= i < |nodes| && Eligible(nodes, master, i)
    ensures forall i, j :: 0 <= i < j < |From(nodes, master, start)| ==>
      From(nodes, master, start)[i] != From(nodes, master, start)[j]
  {
    var a, b := EligibleIn(nodes, master, start, |nodes|), EligibleIn(nodes, master, 0, start);
    EligibleInLists(nodes, master, start, |nodes|);
    EligibleInLists(nodes, master, 0, start);
    assert forall i :: i in a + b <==> i in a || i in b;
    forall i, j | 0 <= i < j < |a + b|
      ensures (a + b)[i] != (a + b)[j]
    {
      if i < |a| <= j {
        assert a[i] in a && b[j - |a|] in b;
      }
    }
  }

  lemma FromInRange(nodes: seq<Node>, master: int, start: nat)
    requires start <= |nodes|
    ensures forall j :: 0 <= j < |From(nodes, master, start)| ==> From(nodes, master, start)[j] < |nodes|
  {
    FromListsEachOnce(nodes, master, start);
    var order := From(nodes, master, start);
    forall j | 0 <= j < |order|
      ensures order[j] < |nodes|
    {
      assert order[j] in order;
    }
  }

  /** Stopping at `hit`, the first eligible index from `start` on, turns the round by one. */
  lemma Rotates(nodes: seq<Node>, master: int, start: nat, hit: nat)
    requires start <= |nodes| && hit < |nodes| && Eligible(nodes, master, hit)
    requires
      if start <= hit then EligibleIn(nodes, master, start, hit) == []
      else EligibleIn(nodes, master, start, |nodes|) == [] && EligibleIn(nodes, master, 0, hit) == []
    ensures From(nodes, master, start) != [] && From(nodes, master, start)[0] == hit
    ensures From(nodes, master, hit + 1) == From(nodes, master, start)[1..] + [hit]
    ensures From(nodes, master, |nodes|) == From(nodes, master, 0)
  {
    var after, before := EligibleIn(nodes, master, hit + 1, |nodes|), EligibleIn(nodes, master, 0, hit);
    UpTo(nodes, master, hit);
    if start <= hit {
      Ahead(nodes, master, start, hit);
      Turn(hit, after, before);
    } else {
      Behind(nodes, master, start, hit);
      Turn(hit, after, []);
    }
  }

  lemma UpTo(nodes: seq<Node>, master: int, hit: nat)
    requires hit < |nodes| && Eligible(nodes, master, hit)
    ensures EligibleIn(nodes, master, 0, hit + 1) == EligibleIn(nodes, master, 0, hit) + [hit]
  {
    assert EligibleIn(nodes, master, hit, hit + 1) == [hit];
    EligibleSplit(nodes, master, 0, hit, hit + 1);
  }

  lemma Ahead(nodes: seq<Node>, master: int, start: nat, hit: nat)
    requires start <= hit < |nodes| && Eligible(nodes, master, hit) && EligibleIn(nodes, master, start, hit) == []
    ensures EligibleIn(nodes, master, start, |nodes|) == [hit] + EligibleIn(nodes, master, hit + 1, |nodes|)
    ensures EligibleIn(nodes, master, 0, start) == EligibleIn(nodes, master, 0, hit)
  {
    EligibleSplit(nodes, master, start, hit, |nodes|);
    EligibleSplit(nodes, master, 0, start, hit);
  }

  lemma Behind(nodes: seq<Node>, master: int, start: nat, hit: nat)
    requires hit < start <= |nodes| && Eligible(nodes, master, hit)
    requires EligibleIn(nodes, master, start, |nodes|) == [] && EligibleIn(nodes, master, 0, hit) == []
    ensures EligibleIn(nodes, master, 0, start) == [hit] + EligibleIn(nodes, master, hit + 1, |nodes|)
  {
    EligibleSplit(nodes, master, 0, hit, start);
    EligibleSplit(nodes, master, hit + 1, start, |nodes|);
  }

  lemma Turn(hit: nat, after: seq<nat>, before: seq<nat>)
    ensures ([hit] + after) + before == [hit] + (after + before)
    ensures (([hit] + after) + before)[1..] + [hit] == after + (before + [hit])
  {
  }

  function AddrsAt(nodes: seq<Node>, at: seq<nat>): seq<HostAndPort>
    requires forall j :: 0 <= j < |at| ==> at[j] < |nodes|
  {
    if at == [] then [] else [nodes[at[0]].addr] + AddrsAt(nodes, at[1..])
  }

  // ----- std::set<string> -----

  predicate Ascending(s: seq<HostAndPort>) {
    forall i, j :: 0 <= i < j < |s| ==> Less(s[i], s[j])
  }

  /** `std::set<string>::insert`, on the elements in iteration order. */
  function Insert(s: seq<HostAndPort>, x: HostAndPort): seq<HostAndPort> {
    if s == [] then [x]
    else if x == s[0] then s
    else if Less(x, s[0]) then [x] + s
    else [s[0]] + Insert(s[1..], x)
  }

  lemma {:induction false} InsertAdds(s: seq<HostAndPort>, x: HostAndPort)
    ensures forall y :: y in Insert(s, x) <==> y == x || y in s
  {
    if s != [] && x != s[0] && !Less(x, s[0]) {
      InsertAdds(s[1..], x);
      assert forall y :: y in s <==> y == s[0] || y in s[1..];
    }
  }

  lemma {:induction false} InsertAscending(s: seq<HostAndPort>, x: HostAndPort)
    requires Ascending(s)
    ensures Ascending(Insert(s, x))
  {
    if s != [] && x != s[0] {
      if Less(x, s[0]) {
        forall j | 0 < j < |s|
          ensures Less(x, s[j])
        {
          LessTransitive(x, s[0], s[j]);
        }
      } else {
        LessTrichotomy(x, s[0]);
        InsertAscending(s[1..], x);
        InsertAdds(s[1..], x);
        var rest := Insert(s[1..], x);
        forall j | 0 <= j < |rest|
          ensures Less(s[0], rest[j])
        {
          assert rest[j] in rest;
        }
      }
    }
  }

  // ----- reconciliation -----

  /** A node stays when it is named, and is the first of its address. */
  predicate Stays(nodes: seq<Node>, list: seq<HostAndPort>, i: nat)
    requires i < |nodes|
  {
    nodes[i].addr in list && Find(nodes, nodes[i].addr, 0) == i
  }

  /** Those of the first `n` nodes that stay, as they were and in their order. */
  function Survivors(nodes: seq<Node>, list: seq<HostAndPort>, n: nat): seq<Node>
    requires n <= |nodes|
  {
    if n == 0 then []
    else Survivors(nodes, list, n - 1) + if Stays(nodes, list, n - 1) then [nodes[n - 1]] else []
  }

  /** The indices, ascending, of those of the first `n` nodes that go. */
  function Removed(nodes: seq<Node>, list: seq<HostAndPort>, n: nat): seq<nat>
    requires n <= |nodes|
  {
    if n == 0 then []
    else Removed(nodes, list, n - 1) + if Stays(nodes, list, n - 1) then [] else [n - 1]
  }

  /** Those of the first `n` hosts that no node has, in the order of the set. */
  function Added(nodes: seq<Node>, list: seq<HostAndPort>, n: nat): seq<HostAndPort>
    requires n <= |list|
  {
    if n == 0 then []
    else
      var before := Added(nodes, list, n - 1);
      if Find(nodes, list[n - 1], 0) >= 0 then before else Insert(before, list[n - 1])
  }

  function NewNodes(hosts: seq<HostAndPort>): (r: seq<Node>)
    ensures |r| == |hosts| && forall i :: 0 <= i < |hosts| ==> r[i] == NewNode(hosts[i])
  {
    seq(|hosts|, i requires 0 <= i < |hosts| => NewNode(hosts[i]))
  }

  /** The node list the reported hosts call for: what stays, then what is new. */
  function Reconciled(nodes: seq<Node>, list: seq<HostAndPort>): seq<Node> {
    Survivors(nodes, list, |nodes|) + NewNodes(Added(nodes, list, |list|))
  }

  /** What `_checkHosts` goes by: an unknown host, or just another number of hosts. */
  predicate ShouldChange(nodes: seq<Node>, list: seq<HostAndPort>) {
    |list| != |nodes| || exists h :: h in list && Find(nodes, h, 0) < 0
  }

  predicate NothingToDo(nodes: seq<Node>, list: seq<HostAndPort>) {
    Added(nodes, list, |list|) == [] && Removed(nodes, list, |nodes|) == []
  }

  /** What `_checkHosts` reports, and the node list it leaves. */
  function Checked(nodes: seq<Node>, list: seq<HostAndPort>): (Result<bool>, seq<Node>) {
    if !ShouldChange(nodes, list) then (Ok(false), nodes)
    else if NothingToDo(nodes, list) then (Threw(ASSERT), nodes)
    else (Ok(true), Reconciled(nodes, list))
  }

  /** After the last index to go, everything up to `n` stays. */
  lemma {:induction false} LastToGo(nodes: seq<Node>, list: seq<HostAndPort>, n: nat, r: seq<nat>, k: nat)
    requires n <= |nodes| && Removed(nodes, list, n) == r + [k]
    ensures k < n && Removed(nodes, list, k) == r
    ensures Survivors(nodes, list, n) == Survivors(nodes, list, k) + nodes[k + 1..n]
  {
    var before := Removed(nodes, list, n - 1);
    if Stays(nodes, list, n - 1) {
      LastToGo(nodes, list, n - 1, r, k);
      assert nodes[k + 1..n] == nodes[k + 1..n - 1] + [nodes[n - 1]];
    } else {
      assert (before + [n - 1])[..|before|] == (r + [k])[..|r|];
      assert (before + [n - 1])[|before|] == (r + [k])[|r|];
    }
  }

  lemma {:induction false} NoneGo(nodes: seq<Node>, list: seq<HostAndPort>, n: nat)
    requires n <= |nodes| && Removed(nodes, list, n) == []
    ensures Survivors(nodes, list, n) == nodes[..n]
  {
    if n > 0 {
      NoneGo(nodes, list, n - 1);
      assert nodes[..n] == nodes[..n - 1] + [nodes[n - 1]];
    }
  }

  /** Erasing the last index to go from the first `n` nodes and what is kept after them. */
  lemma EraseStep(was: seq<Node>, list: seq<HostAndPort>, n: nat, kept: seq<Node>, r: seq<nat>, k: nat)
    requires n <= |was| && Removed(was, list, n) == r + [k]
    ensures k < n && Removed(was, list, k) == r
    ensures var s := was[..n] + kept;
      s[..k] + s[k + 1..] == was[..k] + (was[k + 1..n] + kept)
    ensures Survivors(was, list, n) + kept == Survivors(was, list, k) + (was[k + 1..n] + kept)
  {
    LastToGo(was, list, n, r, k);
    EraseAt(was, n, kept, k);
    Associates(Survivors(was, list, k), was[k + 1..n], kept);
  }

  lemma Associates(a: seq<Node>, b: seq<Node>, c: seq<Node>)
    ensures a + b + c == a + (b + c)
  {
  }

  lemma EraseAt(was: seq<Node>, n: nat, kept: seq<Node>, k: nat)
    requires k < n <= |was|
    ensures var s := was[..n] + kept;
      s[..k] + s[k + 1..] == was[..k] + (was[k + 1..n] + kept)
  {
    var s := was[..n] + kept;
    assert s[..k] == was[..k];
    assert s[k + 1..] == was[k + 1..n] + kept;
  }

  function Around(start: nat, ii: nat, n: nat): nat
    requires start < n && ii <= n
  {
    if start + ii < n then start + ii else start + ii - n
  }

  /** Of the `ii` nodes from `start` on, counted around, none is eligible. */
  predicate NoneSeen(nodes: seq<Node>, master: int, start: nat, ii: nat)
    requires start <= |nodes| && ii <= |nodes|
  {
    if start + ii <= |nodes| then EligibleIn(nodes, master, start, start + ii) == []
    else
      EligibleIn(nodes, master, start, |nodes|) == [] && EligibleIn(nodes, master, 0, start + ii - |nodes|) == []
  }

  lemma StillNone(nodes: seq<Node>, master: int, start: nat, ii: nat)
    requires start < |nodes| && ii < |nodes| && NoneSeen(nodes, master, start, ii)
    requires !Eligible(nodes, master, Around(start, ii, |nodes|))
    ensures NoneSeen(nodes, master, start, ii + 1)
  {
    var next := Around(start, ii, |nodes|);
    Passed(nodes, master, if start <= next then start else 0, next);
  }

  lemma HitAfter(nodes: seq<Node>, master: int, start: nat, ii: nat)
    requires start < |nodes| && ii < |nodes| && NoneSeen(nodes, master, start, ii)
    requires Eligible(nodes, master, Around(start, ii, |nodes|))
    ensures var hit, order := Around(start, ii, |nodes|), From(nodes, master, start);
      order != [] && order[0] == hit && From(nodes, master, (hit + 1) % |nodes|) == order[1..] + [hit]
  {
    var hit := Around(start, ii, |nodes|);
    Rotates(nodes, master, start, hit);
    NextMod(hit, |nodes|);
  }

  lemma AllSeen(nodes: seq<Node>, master: int, start: nat)
    requires start < |nodes| && NoneSeen(nodes, master, start, |nodes|)
    ensures From(nodes, master, start) == []
  {
  }

  /** A node that may serve: up, a secondary, not hidden, and not the master. */
  predicate Serves(nodes: seq<Node>, master: int, i: nat)
  {
    i < |nodes| && i != master && nodes[i].ok && nodes[i].secondary && nodes[i].hidden == false
  }

  ghost predicate NoneServes(nodes: seq<Node>, master: int)
  {
    forall i: nat :: !Serves(nodes, master, i)
  }

  lemma ServesFirst(nodes: seq<Node>, master: int, start: nat)
    requires start <= |nodes|
    ensures var order := From(nodes, master, start);
      if order != [] then Serves(nodes, master, order[0]) else NoneServes(nodes, master)
  {
    FromListsEachOnce(nodes, master, start);
    var order := From(nodes, master, start);
    if order != [] {
      assert order[0] in order;
    } else {
      forall i: nat
        ensures !Serves(nodes, master, i)
      {
        assert i !in order;
      }
    }
  }

  class ReplicaSetMonitor {
    var nodes: seq<Node>
    var master: int
    var nextSlave: nat

    constructor (addrs: seq<HostAndPort>)
      ensures nodes == NewNodes(addrs) && master == -1 && nextSlave == 0
    {
      nodes, master, nextSlave := NewNodes(addrs), -1, 0;
    }

    /** The eligible secondaries in the order the next calls choose them. */
    ghost function Order(): (order: seq<nat>)
      reads this
      ensures forall j :: 0 <= j < |order| ==> order[j] < |nodes|
    {
      if nodes == [] then []
      else
        FromInRange(nodes, master, (nextSlave + 1) % |nodes|);
        From(nodes, master, (nextSlave + 1) % |nodes|)
    }

    /** What is left when no secondary will do: the master if known, else the first node. */
    function Fallback(): Result<HostAndPort>
      reads this
    {
      if master >= 0 then
        if master < |nodes| then Ok(nodes[master].addr) else Threw(ASSERT)
      else if nodes != [] then Ok(nodes[0].addr)
      else Threw(ASSERT)
    }

    /** The loop of `getSlave`, and what follows it. */
    method TakeTurn() returns (r: Result<HostAndPort>)
      modifies this`nextSlave
      ensures var order := old(Order());
        if order == [] then r == Fallback() && Order() == []
        else r == Ok(nodes[order[0]].addr) && nextSlave == order[0] && Order() == order[1..] + [order[0]]
    {
      var ii := 0;
      ghost var n := |nodes|;
      ghost var start := if n == 0 then 0 else (nextSlave + 1) % n;
      while ii < |nodes|
        invariant 0 <= ii <= n == |nodes| && start <= n
        invariant n > 0 ==> start < n && (nextSlave + 1) % n == Around(start, ii, n)
        invariant NoneSeen(nodes, master, start, ii)
      {
        nextSlave := (nextSlave + 1) % |nodes|;
        ghost var next := nextSlave;
        NextMod(next, n);
        if nextSlave != master {
          if nodes[nextSlave].OkForSecondaryQueries() {
            HitAfter(nodes, master, start, ii);
            return Ok(nodes[nextSlave].addr);
          }
        }
        StillNone(nodes, master, start, ii);
        ii := ii + 1;
      }
      if n > 0 {
        AllSeen(nodes, master, start);
        NoneLeft(nodes, master, start, (nextSlave + 1) % n);
      }
      r := MasterOrFirst();
    }

    /** The next eligible secondary in turn, or the fallback. */
    method GetSlave() returns (r: Result<HostAndPort>)
      modifies this`nextSlave
      ensures var order := old(Order());
        if order == [] then r == Fallback() && Order() == []
        else r == Ok(nodes[order[0]].addr) && nextSlave == order[0] && Order() == order[1..] + [order[0]]
      ensures old(Order()) != [] ==> Serves(nodes, master, nextSlave) && r == Ok(nodes[nextSlave].addr)
      ensures old(Order()) == [] ==> NoneServes(nodes, master)
      ensures old(Order()) == [] ==>
        r == if 0 <= master < |nodes| then Ok(nodes[master].addr)
             else if master < 0 && |nodes| > 0 then Ok(nodes[0].addr)
             else Threw(ASSERT)
    {
      if nodes != [] {
        ServesFirst(nodes, master, (nextSlave + 1) % |nodes|);
      }
      r := TakeTurn();
    }

    method MasterOrFirst() returns (r: Result<HostAndPort>)
      ensures r == Fallback()
    {
      if master >= 0 {
        if master >= |nodes| {
          return Threw(ASSERT);
        }
        return Ok(nodes[master].addr);
      }
      if |nodes| == 0 {
        return Threw(ASSERT);
      }
      return Ok(nodes[0].addr);
    }

    /** `k` calls in a row, up to the number of eligible secondaries, name `k` of them once each,
        in turn; a full round names them all and leaves the order as it was. */
    method GetSlaves(k: nat) returns (addrs: seq<HostAndPort>)
      requires k <= |Order()|
      modifies this`nextSlave
      ensures addrs == AddrsAt(nodes, old(Order())[..k])
      ensures Order() == old(Order())[k..] + old(Order())[..k]
      decreases k
    {
      if k == 0 {
        return [];
      }
      ghost var order := Order();
      var first := GetSlave();
      addrs := GetSlaves(k - 1);
      addrs := [first.value] + addrs;
      TurnedFurther(order, k);
      FirstAddr(nodes, order, k);
    }

    /** The index of the node of that address, or -1. */
    method FindInlock(server: HostAndPort) returns (at: int)
      ensures at == Find(nodes, server, 0)
    {
      for i := 0 to |nodes|
        invariant Find(nodes, server, 0) == Find(nodes, server, i)
      {
        if nodes[i].addr == server {
          return i;
        }
      }
      return -1;
    }

    /** Stays with `prev` while it may still be used; else takes the next in turn. */
    method GetSlaveAfter(prev: HostAndPort) returns (r: Result<HostAndPort>)
      modifies this`nextSlave
      ensures var at := Find(nodes, prev, 0);
        if prev != [] && at >= 0 && nodes[at].ok && nodes[at].secondary && !nodes[at].hidden then
          r == Ok(prev) && nextSlave == old(nextSlave)
        else if old(Order()) == [] then NoneServes(nodes, master) && r == Fallback()
        else Serves(nodes, master, nextSlave) && r == Ok(nodes[old(Order())[0]].addr) && nextSlave == old(Order())[0]
    {
      if prev != [] {
        var i := 0;
        while i < |nodes|
          invariant 0 <= i <= |nodes| && nextSlave == old(nextSlave)
          invariant Find(nodes, prev, 0) == Find(nodes, prev, i)
        {
          if nodes[i].addr == prev {
            if nodes[i].OkForSecondaryQueries() {
              return Ok(prev);
            }
            break;
          }
          i := i + 1;
        }
      }
      r := GetSlave();
    }

    /** The hosts no node has, and the indices of the nodes that go. */
    method HostDiff(list: seq<HostAndPort>) returns (added: seq<HostAndPort>, removed: seq<nat>)
      ensures added == Added(nodes, list, |list|) && removed == Removed(nodes, list, |nodes|)
    {
      added, removed := [], [];
      var nodesFound: set<int> := {};
      for k := 0 to |list|
        invariant added == Added(nodes, list, k)
        invariant forall i :: i in nodesFound ==> FoundBy(nodes, list, k, i)
        invariant forall j :: 0 <= j < k && Find(nodes, list[j], 0) >= 0 ==> Find(nodes, list[j], 0) in nodesFound
      {
        var at := FindInlock(list[k]);
        if at < 0 {
          added := Insert(added, list[k]);
        } else {
          nodesFound := nodesFound + {at};
        }
      }
      for i := 0 to |nodes|
        invariant removed == Removed(nodes, list, i)
      {
        StaysIffFound(nodes, list, i);
        if i !in nodesFound {
          removed := removed + [i];
        }
      }
    }

    method ShouldChangeHosts(list: seq<HostAndPort>) returns (b: bool)
      ensures b == ShouldChange(nodes, list)
    {
      var origHosts, numHosts, changed := |nodes|, 0, false;
      var k := 0;
      while k < |list|
        invariant 0 <= k <= |list| && numHosts == k && !changed
        invariant forall j :: 0 <= j < k ==> Find(nodes, list[j], 0) >= 0
      {
        numHosts := numHosts + 1;
        var at := FindInlock(list[k]);
        if at < 0 {
          assert list[k] in list;
          changed := true;
          break;
        }
        k := k + 1;
      }
      return changed || origHosts != numHosts;
    }

    /** Erases the nodes that go from the last to the first, which keeps the indices good. */
    method EraseAll(removed: seq<nat>, ghost list: seq<HostAndPort>)
      requires removed == Removed(nodes, list, |nodes|)
      modifies this`nodes
      ensures nodes == Survivors(old(nodes), list, |old(nodes)|)
    {
      ghost var was := nodes;
      ghost var n: nat := |was|;
      ghost var goal := Survivors(was, list, n);
      ghost var kept: seq<Node> := [];
      var j := |removed|;
      while j > 0
        invariant 0 <= j <= |removed| && n <= |was|
        invariant removed[..j] == Removed(was, list, n)
        invariant nodes == was[..n] + kept
        invariant goal == Survivors(was, list, n) + kept
      {
        j := j - 1;
        var k := removed[j];
        assert removed[..j + 1] == removed[..j] + [k];
        EraseStep(was, list, n, kept, removed[..j], k);
        nodes := nodes[..k] + nodes[k + 1..];
        kept := was[k + 1..n] + kept;
        n := k;
      }
      NoneGo(was, list, n);
    }

    /** Makes the nodes match the reported hosts. */
    method CheckHosts(list: seq<HostAndPort>) returns (changed: Result<bool>)
      modifies this`nodes
      ensures (changed, nodes) == Checked(old(nodes), list)
    {
      var fast := ShouldChangeHosts(list);
      if !fast {
        return Ok(false);
      }
      var slow := ShouldChangeHosts(list);
      if !slow {
        return Ok(false);
      }
      var added, removed := HostDiff(list);
      if !(|added| > 0 || |removed| > 0) {
        return Threw(ASSERT);
      }
      EraseAll(removed, list);
      ghost var kept := nodes;
      for k := 0 to |added|
        invariant nodes == kept + NewNodes(added[..k])
      {
        nodes := nodes + [NewNode(added[k])];
      }
      assert added[..|added|] == added;
      return Ok(true);
    }
  }

  lemma FirstAddr(nodes: seq<Node>, order: seq<nat>, k: nat)
    requires 0 < k <= |order| && forall j :: 0 <= j < |order| ==> order[j] < |nodes|
    ensures AddrsAt(nodes, order[..k]) == [nodes[order[0]].addr] + AddrsAt(nodes, order[..k][1..])
  {
  }

  lemma TurnedFurther(order: seq<nat>, k: nat)
    requires 0 < k <= |order|
    ensures var turned := order[1..] + [order[0]];
      turned[..k - 1] == order[..k][1..] && turned[k - 1..] + turned[..k - 1] == order[k..] + order[..k]
  {
    var turned := order[1..] + [order[0]];
    assert turned[k - 1..] == order[k..] + [order[0]];
    assert order[..k] == [order[0]] + turned[..k - 1];
  }

  lemma NextMod(next: nat, n: nat)
    requires next < n
    ensures (next + 1) % n == if next + 1 < n then next + 1 else 0
  {
  }

  /** A round that found nothing: there is no eligible secondary, wherever one starts. */
  lemma NoneLeft(nodes: seq<Node>, master: int, start: nat, other: nat)
    requires start <= |nodes| && other <= |nodes| && From(nodes, master, start) == []
    ensures From(nodes, master, other) == []
  {
    FromListsEachOnce(nodes, master, start);
    FromListsEachOnce(nodes, master, other);
    var none, order := From(nodes, master, start), From(nodes, master, other);
    assert forall i :: i !in order;
    HasMember(order);
  }

  lemma HasMember<T>(s: seq<T>)
    ensures s != [] ==> exists x :: x in s
  {
    if s != [] {
      assert s[0] in s;
    }
  }

  predicate FoundBy(nodes: seq<Node>, list: seq<HostAndPort>, k: nat, i: int)
    requires k <= |list|
  {
    exists j :: 0 <= j < k && Find(nodes, list[j], 0) == i >= 0
  }

  lemma StaysIffFound(nodes: seq<Node>, list: seq<HostAndPort>, i: nat)
    requires i < |nodes|
    ensures Stays(nodes, list, i) <==> FoundBy(nodes, list, |list|, i)
  {
    if Stays(nodes, list, i) {
      var j :| 0 <= j < |list| && list[j] == nodes[i].addr;
    }
    if FoundBy(nodes, list, |list|, i) {
      var j :| 0 <= j < |list| && Find(nodes, list[j], 0) == i;
      FindFirst(nodes, list[j], 0);
      assert list[j] in list;
    }
  }

  // ----- when reconciliation is right -----

  predicate Known(nodes: seq<Node>, addr: HostAndPort) {
    exists i :: 0 <= i < |nodes| && nodes[i].addr == addr
  }

  predicate DistinctAddrs(nodes: seq<Node>) {
    forall i, j :: 0 <= i < j < |nodes| ==> nodes[i].addr != nodes[j].addr
  }

  /** One node for each reported host, and no other. */
  ghost predicate Matches(nodes: seq<Node>, list: seq<HostAndPort>) {
    DistinctAddrs(nodes) && forall h :: Known(nodes, h) <==> h in list
  }

  lemma FindKnown(nodes: seq<Node>, addr: HostAndPort)
    ensures Find(nodes, addr, 0) >= 0 <==> Known(nodes, addr)
  {
    FindFirst(nodes, addr, 0);
  }

  lemma {:induction false} AddedLists(nodes: seq<Node>, list: seq<HostAndPort>, n: nat)
    requires n <= |list|
    ensures Ascending(Added(nodes, list, n))
    ensures forall h :: h in Added(nodes, list, n) <==> h in list[..n] && !Known(nodes, h)
  {
    if n > 0 {
      AddedLists(nodes, list, n - 1);
      FindKnown(nodes, list[n - 1]);
      assert list[..n] == list[..n - 1] + [list[n - 1]];
      InsertAscending(Added(nodes, list, n - 1), list[n - 1]);
      InsertAdds(Added(nodes, list, n - 1), list[n - 1]);
    }
  }

  lemma {:induction false} SurvivorsLists(nodes: seq<Node>, list: seq<HostAndPort>, n: nat)
    requires n <= |nodes|
    ensures DistinctAddrs(Survivors(nodes, list, n))
    ensures forall m :: m in Survivors(nodes, list, n) ==> m.addr in list && m in nodes[..n]
    ensures forall i :: 0 <= i < n && Stays(nodes, list, i) ==> nodes[i] in Survivors(nodes, list, n)
  {
    if n > 0 {
      SurvivorsLists(nodes, list, n - 1);
      var before := Survivors(nodes, list, n - 1);
      assert nodes[..n] == nodes[..n - 1] + [nodes[n - 1]];
      if Stays(nodes, list, n - 1) {
        FindFirst(nodes, nodes[n - 1].addr, 0);
        forall i | 0 <= i < |before|
          ensures before[i].addr != nodes[n - 1].addr
        {
          assert before[i] in before;
        }
      }
    }
  }

  lemma {:induction false} RemovedLists(nodes: seq<Node>, list: seq<HostAndPort>, n: nat)
    requires n <= |nodes|
    ensures Removed(nodes, list, n) == [] <==> forall i :: 0 <= i < n ==> Stays(nodes, list, i)
  {
    if n > 0 {
      RemovedLists(nodes, list, n - 1);
    }
  }

  lemma ReconciledDistinct(nodes: seq<Node>, list: seq<HostAndPort>)
    ensures DistinctAddrs(Reconciled(nodes, list))
  {
    var kept, added := Survivors(nodes, list, |nodes|), Added(nodes, list, |list|);
    SurvivorsLists(nodes, list, |nodes|);
    AddedLists(nodes, list, |list|);
    var after := Reconciled(nodes, list);
    forall i, j | 0 <= i < j < |after|
      ensures after[i].addr != after[j].addr
    {
      if |kept| <= i {
        LessIrreflexive(added[i - |kept|]);
      } else if |kept| <= j {
        assert after[i] in kept && added[j - |kept|] in added;
        assert after[i] in nodes;
      }
    }
  }

  lemma ReconciledKnows(nodes: seq<Node>, list: seq<HostAndPort>, h: HostAndPort)
    ensures Known(Reconciled(nodes, list), h) <==> h in list
  {
    var kept, added := Survivors(nodes, list, |nodes|), Added(nodes, list, |list|);
    var after := Reconciled(nodes, list);
    SurvivorsLists(nodes, list, |nodes|);
    AddedLists(nodes, list, |list|);
    assert list[..|list|] == list;
    if Known(after, h) {
      var i :| 0 <= i < |after| && after[i].addr == h;
      assert after[i] in kept || after[i].addr in added;
    }
    if h in list {
      FindFirst(nodes, h, 0);
      var at := Find(nodes, h, 0);
      if at >= 0 {
        assert Stays(nodes, list, at);
        var i :| 0 <= i < |kept| && kept[i] == nodes[at];
        assert after[i].addr == h;
      } else {
        var i :| 0 <= i < |added| && added[i] == h;
        assert after[|kept| + i].addr == h;
      }
    }
  }

  /** A node of the new list is one there was, as it was, or a new one that counts as up and nothing
      else. */
  lemma ReconciledNodes(nodes: seq<Node>, list: seq<HostAndPort>, m: Node)
    requires m in Reconciled(nodes, list)
    ensures m in nodes || m == Node(m.addr, true, false, false, false, 0)
  {
    SurvivorsLists(nodes, list, |nodes|);
    assert nodes[..|nodes|] == nodes;
  }

  /** The list always comes out right when there is something to add or to remove. */
  lemma ReconciledMatches(nodes: seq<Node>, list: seq<HostAndPort>)
    ensures Matches(Reconciled(nodes, list), list)
  {
    ReconciledDistinct(nodes, list);
    forall h
      ensures Known(Reconciled(nodes, list), h) <==> h in list
    {
      ReconciledKnows(nodes, list, h);
    }
  }

  lemma MatchesNothingToDo(nodes: seq<Node>, list: seq<HostAndPort>)
    requires Matches(nodes, list)
    ensures NothingToDo(nodes, list)
  {
    AddedLists(nodes, list, |list|);
    RemovedLists(nodes, list, |nodes|);
    assert list[..|list|] == list;
    HasMember(Added(nodes, list, |list|));
    forall i | 0 <= i < |nodes|
      ensures Stays(nodes, list, i)
    {
      FindFirst(nodes, nodes[i].addr, 0);
      assert Known(nodes, nodes[i].addr);
    }
  }

  lemma NothingToDoMatches(nodes: seq<Node>, list: seq<HostAndPort>)
    requires NothingToDo(nodes, list)
    ensures Matches(nodes, list)
  {
    ReconciledMatches(nodes, list);
    NoneGo(nodes, list, |nodes|);
    assert Reconciled(nodes, list) == nodes;
  }

  lemma NothingToDoIffMatches(nodes: seq<Node>, list: seq<HostAndPort>)
    ensures NothingToDo(nodes, list) <==> Matches(nodes, list)
  {
    if Matches(nodes, list) {
      MatchesNothingToDo(nodes, list);
    }
    if NothingToDo(nodes, list) {
      NothingToDoMatches(nodes, list);
    }
  }

  /** `_checkHosts` does its work (the nodes match the hosts, `changed` says whether they did not
      before, nothing throws) exactly when a host is unknown, or the number of hosts tells
      truly whether the nodes match already. */
  lemma CheckHostsRightIff(nodes: seq<Node>, list: seq<HostAndPort>)
    ensures var (changed, after) := Checked(nodes, list);
      changed == Ok(!Matches(nodes, list)) && Matches(after, list) <==>
      (exists h :: h in list && !Known(nodes, h)) || (|list| == |nodes| <==> Matches(nodes, list))
  {
    forall h
      ensures Find(nodes, h, 0) >= 0 <==> Known(nodes, h)
    {
      FindKnown(nodes, h);
    }
    NothingToDoIffMatches(nodes, list);
    ReconciledMatches(nodes, list);
  }

  function Hosts(list: seq<HostAndPort>): set<HostAndPort> {
    set h | h in list
  }

  function AddrList(nodes: seq<Node>): (r: seq<HostAndPort>)
    ensures |r| == |nodes| && forall i :: 0 <= i < |nodes| ==> r[i] == nodes[i].addr
  {
    seq(|nodes|, i requires 0 <= i < |nodes| => nodes[i].addr)
  }

  lemma {:induction false} DistinctIffAsManyHosts(list: seq<HostAndPort>)
    ensures |Hosts(list)| <= |list|
    ensures |Hosts(list)| == |list| <==> Distinct(list)
  {
    if list != [] {
      var rest, last := list[..|list| - 1], list[|list| - 1];
      DistinctIffAsManyHosts(rest);
      assert list == rest + [last];
      assert Hosts(list) == Hosts(rest) + {last};
      if last in rest {
        assert Hosts(list) == Hosts(rest);
        var i :| 0 <= i < |rest| && rest[i] == last;
        assert list[i] == list[|list| - 1];
      }
    }
  }

  /** With no unknown host, counting them tells whether the nodes match. */
  lemma MatchesIffAsMany(nodes: seq<Node>, list: seq<HostAndPort>)
    requires DistinctAddrs(nodes) && forall h :: h in list ==> Known(nodes, h)
    ensures |AddrList(nodes)| == |Hosts(AddrList(nodes))|
    ensures Matches(nodes, list) <==> |Hosts(list)| == |nodes|
  {
    var addrs := AddrList(nodes);
    assert Distinct(addrs);
    DistinctIffAsManyHosts(addrs);
    forall h
      ensures Known(nodes, h) <==> h in Hosts(addrs)
    {
      if Known(nodes, h) {
        var i :| 0 <= i < |nodes| && nodes[i].addr == h;
        assert addrs[i] == h;
      }
    }
    assert Hosts(list) <= Hosts(addrs);
    if |Hosts(list)| == |nodes| {
      SubsetOfSameSize(Hosts(list), Hosts(addrs));
    }
    if Matches(nodes, list) {
      assert Hosts(list) == Hosts(addrs);
    }
  }

  /** For distinct nodes that is: a host is unknown, or the list is as long as there are nodes just
      when it has as many different hosts. */
  lemma CheckHostsRightIffCounts(nodes: seq<Node>, list: seq<HostAndPort>)
    requires DistinctAddrs(nodes)
    ensures var (changed, after) := Checked(nodes, list);
      changed == Ok(!Matches(nodes, list)) && Matches(after, list) <==>
      (exists h :: h in list && !Known(nodes, h)) || (|list| == |nodes| <==> |Hosts(list)| == |nodes|)
  {
    CheckHostsRightIff(nodes, list);
    if forall h :: h in list ==> Known(nodes, h) {
      MatchesIffAsMany(nodes, list);
    }
  }

  /** Without duplicates on either side it always does its work. */
  lemma DistinctListsAreRight(nodes: seq<Node>, list: seq<HostAndPort>)
    requires DistinctAddrs(nodes) && Distinct(list)
    ensures var (changed, after) := Checked(nodes, list);
      changed == Ok(!Matches(nodes, list)) && Matches(after, list)
  {
    CheckHostsRightIffCounts(nodes, list);
    DistinctIffAsManyHosts(list);
  }

  lemma {:induction false} SubsetOfSameSize(a: set<HostAndPort>, b: set<HostAndPort>)
    requires a <= b && |a| == |b|
    ensures a == b
  {
    if x :| x in b && x !in a {
      assert a <= b - {x};
      SubsetSize(a, b - {x});
    }
  }

  lemma {:induction false} SubsetSize(a: set<HostAndPort>, b: set<HostAndPort>)
    requires a <= b
    ensures |a| <= |b|
  {
    if a != {} {
      var x :| x in a;
      SubsetSize(a - {x}, b - {x});
    }
  }

  /** Once the nodes match, reporting the same hosts again changes nothing; but if the list
      names a host twice, every further report of it throws. */
  lemma CheckingAgain(nodes: seq<Node>, list: seq<HostAndPort>)
    requires Matches(nodes, list)
    ensures Checked(nodes, list) == (if Distinct(list) then Ok(false) else Threw(ASSERT), nodes)
  {
    var addrs := AddrList(nodes);
    DistinctIffAsManyHosts(addrs);
    DistinctIffAsManyHosts(list);
    NothingToDoIffMatches(nodes, list);
    forall h
      ensures h in Hosts(list) <==> h in Hosts(addrs)
      ensures h in list ==> Find(nodes, h, 0) >= 0
    {
      FindKnown(nodes, h);
      assert h in addrs <==> Known(nodes, h);
    }
    assert Hosts(list) == Hosts(addrs);
  }

  /** A host named twice can hide one that has gone. */
  lemma DuplicatesHideARemoval()
    ensures var nodes, list := [NewNode([97]), NewNode([98])], [[97], [97]];
      Checked(nodes, list) == (Ok(false), nodes) && !Matches(nodes, list)
  {
    var nodes, list := [NewNode([97]), NewNode([98])], [[97], [97]];
    assert nodes[0].addr == [97] && nodes[1].addr == [98];
    assert Find(nodes, [97], 0) == 0;
    assert Known(nodes, nodes[1].addr);
    assert nodes[1].addr !in list;
  }
}
