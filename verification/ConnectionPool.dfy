/** `DBConnectionPool`: idle connections kept on a stack per server and timeout, taken by the next
    client, expired after 1800 seconds, and capped in number. */
module ConnectionPool {
  import opened Bytes
  import opened Sequences

  // ----- keys -----

  /** A C `char`, signed. */
  type cchar = x: int | -128 <= x < 128

  const SLASH: cchar := 47

  predicate EndsAt(a: seq<cchar>, i: nat)
    requires i <= |a|
  {
    i == |a| || a[i] == 0 || a[i] == SLASH
  }

  /** The part of a server name that counts: a set's name without its members, from `i` on. */
  function Canon(a: seq<cchar>, i: nat): seq<cchar>
    requires i <= |a|
    decreases |a| - i
  {
    if EndsAt(a, i) then [] else [a[i]] + Canon(a, i + 1)
  }

  /** It is what stands before the first slash or NUL. */
  lemma {:induction false} CanonIs(a: seq<cchar>, i: nat) returns (end: nat)
    requires i <= |a|
    ensures i <= end <= |a| && Canon(a, i) == a[i..end]
    ensures forall j :: i <= j < end ==> a[j] != 0 && a[j] != 47
    ensures end < |a| ==> a[end] == 0 || a[end] == 47
    decreases |a| - i
  {
    end := i;
    if !EndsAt(a, i) {
      end := CanonIs(a, i + 1);
      OneLonger(a, i, end);
    }
  }

  lemma OneLonger(a: seq<cchar>, i: nat, end: nat)
    requires i < end <= |a|
    ensures a[i..end] == [a[i]] + a[i + 1..end]
  {
  }

  method ServerNameCompare(a: seq<cchar>, b: seq<cchar>) returns (less: bool)
    ensures less == Less(Canon(a, 0), Canon(b, 0))
  {
    ghost var goal := Less(Canon(a, 0), Canon(b, 0));
    var i := 0;
    while true
      invariant 0 <= i <= |a| && i <= |b|
      invariant Less(Canon(a, i), Canon(b, i)) == goal
      decreases |a| - i
    {
      if EndsAt(a, i) {
        if EndsAt(b, i) {
          return false;
        } else {
          return true;
        }
      }
      if EndsAt(b, i) {
        return false;
      }
      if a[i] < b[i] {
        return true;
      } else if a[i] > b[i] {
        return false;
      }
      assert Canon(a, i)[1..] == Canon(a, i + 1) && Canon(b, i)[1..] == Canon(b, i + 1);
      i := i + 1;
    }
  }

  datatype PoolKey = PoolKey(ident: seq<cchar>, timeout: real)

  /** The order `poolKeyCompare` gives. */
  predicate KeyLess(a: PoolKey, b: PoolKey) {
    Less(Canon(a.ident, 0), Canon(b.ident, 0)) ||
    (!Less(Canon(b.ident, 0), Canon(a.ident, 0)) && a.timeout < b.timeout)
  }

  method PoolKeyCompare(a: PoolKey, b: PoolKey) returns (less: bool)
    ensures less == KeyLess(a, b)
  {
    var ab := ServerNameCompare(a.ident, b.ident);
    if ab {
      return true;
    }
    var ba := ServerNameCompare(b.ident, a.ident);
    if ba {
      return false;
    }
    return a.timeout < b.timeout;
  }

  /** What the map keeps apart: the canonical name and the timeout. */
  function Slot(k: PoolKey): PoolKey {
    PoolKey(Canon(k.ident, 0), k.timeout)
  }

  /** The comparison is a strict weak order, so a `std::map` by it is a map by slots. */
  lemma KeysAreSlots(a: PoolKey, b: PoolKey, c: PoolKey)
    ensures !KeyLess(a, a)
    ensures KeyLess(a, b) && KeyLess(b, c) ==> KeyLess(a, c)
    ensures !KeyLess(a, b) && !KeyLess(b, a) <==> Slot(a) == Slot(b)
  {
    var x, y, z := Canon(a.ident, 0), Canon(b.ident, 0), Canon(c.ident, 0);
    LessIrreflexive(x);
    LessIrreflexive(y);
    LessTrichotomy(x, y);
    LessTrichotomy(y, z);
    if Less(x, y) && Less(y, z) {
      LessTransitive(x, y, z);
    }
    if Less(x, y) && Less(y, x) {
      LessTransitive(x, y, x);
    }
  }

  // ----- stacks -----

  const MAX_PER_HOST: nat := 50
  const MAX_IDLE_SECONDS: int := 1800
  const CONNECT_ERROR: nat := 11002

  /** A connection, by its address. */
  type Conn = nat

  /** What the address points to: whoever holds the connection may change it. */
  datatype DBClientBase = DBClientBase(soTimeout: real, failed: bool)

  type Connections = map<Conn, DBClientBase>

  datatype StoredConnection = StoredConnection(conn: Conn, when: int)
  {
    predicate Live(now: int) {
      now - when < MAX_IDLE_SECONDS
    }
  }

  type Stack = seq<StoredConnection>

  datatype Pooled = Pooled(stack: Stack, created: nat)

  /** From index `n` up every connection has been idle half an hour or more. */
  predicate ExpiredFrom(s: Stack, n: nat, now: int)
  {
    forall i :: n <= i < |s| ==> now - s[i].when >= 1800
  }

  /** The height of the stack once the expired connections on top of it are gone. */
  function LiveHeight(s: Stack, now: int): (n: nat)
    ensures n <= |s| && (n > 0 ==> now - s[n - 1].when < 1800)
  {
    if s == [] || s[|s| - 1].Live(now) then |s| else LiveHeight(s[..|s| - 1], now)
  }

  lemma {:induction false} ExpiredAbove(s: Stack, now: int)
    ensures ExpiredFrom(s, LiveHeight(s, now), now)
  {
    if s != [] && !s[|s| - 1].Live(now) {
      ExpiredAbove(s[..|s| - 1], now);
    }
  }

  /** The connections above height `n`, from the top down. */
  function Popped(s: Stack, n: nat): seq<Conn>
    requires n <= |s|
  {
    if |s| == n then [] else [s[|s| - 1].conn] + Popped(s[..|s| - 1], n)
  }

  /** The top of what is left of a stack is live, or goes. */
  lemma PopOne(all: Stack, s: Stack, n: nat, now: int, done: seq<Conn>, gone: seq<Conn>)
    requires s != [] && |s| <= |all| && s == all[..|s|] && LiveHeight(s, now) == n && done + Popped(s, n) == gone
    ensures var below, top := s[..|s| - 1], s[|s| - 1];
      below == all[..|below|] &&
      if top.Live(now) then n == |s| && done == gone
      else n <= |below| && LiveHeight(below, now) == n && (done + [top.conn]) + Popped(below, n) == gone
  {
    var below, top := s[..|s| - 1], s[|s| - 1];
    if !top.Live(now) {
      assert done + ([top.conn] + Popped(below, n)) == (done + [top.conn]) + Popped(below, n);
    }
  }

  /** What a cleanup keeps: the live connections, but upside down. */
  function Kept(s: Stack, now: int): Stack {
    if s == [] then []
    else (if s[|s| - 1].Live(now) then [s[|s| - 1]] else []) + Kept(s[..|s| - 1], now)
  }

  /** What it takes out, from the top down. */
  function Stale(s: Stack, now: int): seq<Conn> {
    if s == [] then []
    else (if s[|s| - 1].Live(now) then [] else [s[|s| - 1].conn]) + Stale(s[..|s| - 1], now)
  }

  /** The live connections, from the bottom up. */
  function LiveOnes(s: Stack, now: int): Stack {
    if s == [] then [] else LiveOnes(s[..|s| - 1], now) + if now - s[|s| - 1].when < 1800 then [s[|s| - 1]] else []
  }

  lemma {:induction false} KeptIsReversed(s: Stack, now: int)
    ensures Kept(s, now) == Reversed(LiveOnes(s, now))
  {
    if s != [] {
      KeptIsReversed(s[..|s| - 1], now);
      var below, last := LiveOnes(s[..|s| - 1], now), s[|s| - 1];
      assert (below + [last])[..|below|] == below;
      assert below + [] == below;
    }
  }

  /** What is kept and what is taken out, in seconds. */
  ghost predicate Cleared(s: Stack, kept: Stack, stale: seq<Conn>, now: int) {
    (forall sc :: sc in kept <==> sc in s && now - sc.when < 1800) &&
    forall c :: c in stale <==> exists sc :: sc in s && sc.conn == c && now - sc.when >= 1800
  }

  lemma {:induction false} KeptAndStale(s: Stack, now: int)
    ensures Cleared(s, Kept(s, now), Stale(s, now), now)
  {
    if s != [] {
      var init, last := s[..|s| - 1], s[|s| - 1];
      KeptAndStale(init, now);
      assert s == init + [last];
      forall c
        ensures c in Stale(s, now) <==> exists sc :: sc in s && sc.conn == c && now - sc.when >= 1800
      {
        if c in Stale(init, now) {
          var sc :| sc in init && sc.conn == c && now - sc.when >= 1800;
          assert sc in s;
        } else if c == last.conn && now - last.when >= 1800 {
          assert last in s;
        }
      }
    }
  }

  class PoolForHost {
    var pool: Stack
    var created: nat

    /** The pool the map holds; it holds them by value. */
    constructor (pooled: Pooled)
      ensures pool == pooled.stack && created == pooled.created
    {
      pool, created := pooled.stack, pooled.created;
    }

    /** Keeps a returned connection, or destroys it when there are enough. */
    method Done(c: Conn, now: int) returns (destroyed: bool)
      modifies this`pool
      ensures destroyed == (|old(pool)| >= 50)
      ensures pool == if destroyed then old(pool) else old(pool) + [StoredConnection(c, now)]
    {
      if |pool| >= MAX_PER_HOST {
        return true;
      }
      pool := pool + [StoredConnection(c, now)];
      return false;
    }

    /** The live connection nearest the top, if any; the expired ones above it are destroyed.
        Throws if that connection's timeout is not the one its key stands for. */
    method Get(conns: Connections, now: int, socketTimeout: real)
        returns (r: Result<Option<Conn>>, destroyed: seq<Conn>)
      requires forall i :: 0 <= i < |pool| ==> pool[i].conn in conns
      modifies this`pool
      ensures var s := old(pool);
        var n := LiveHeight(s, now);
        destroyed == Popped(s, n) &&
        if n == 0 then r == Ok(None) && pool == []
        else
          pool == s[..n - 1] && now - s[n - 1].when < 1800 &&
          r == if conns[s[n - 1].conn].soTimeout == socketTimeout then Ok(Some(s[n - 1].conn)) else Threw(ASSERT)
    {
      destroyed := [];
      ghost var s, n := pool, LiveHeight(pool, now);
      ghost var gone := Popped(s, n);
      while |pool| > 0
        invariant n <= |pool| <= |s| && pool == s[..|pool|] && LiveHeight(pool, now) == n
        invariant destroyed + Popped(pool, n) == gone
        decreases |pool|
      {
        var sc := pool[|pool| - 1];
        PopOne(s, pool, n, now, destroyed, gone);
        pool := pool[..|pool| - 1];
        if !sc.Live(now) {
          destroyed := destroyed + [sc.conn];
          continue;
        }
        assert pool == s[..n - 1] && sc == s[n - 1] && destroyed == gone;
        if conns[sc.conn].soTimeout != socketTimeout {
          return Threw(ASSERT), destroyed;
        }
        return Ok(Some(sc.conn)), destroyed;
      }
      return Ok(None), destroyed;
    }

    /** Pings every connection; the stack comes back upside down. */
    method Flush()
      modifies this`pool
      ensures pool == Reversed(old(pool))
    {
      var all: Stack := [];
      ghost var s := pool;
      while |pool| > 0
        invariant all + Reversed(pool) == Reversed(s)
        decreases |pool|
      {
        all := all + [pool[|pool| - 1]];
        pool := pool[..|pool| - 1];
      }
      for i := 0 to |all|
        invariant pool == all[..i]
      {
        pool := pool + [all[i]];
      }
    }

    /** Takes out the connections that have expired; the rest come back upside down. */
    method GetStaleConnections(now: int) returns (stale: seq<Conn>)
      modifies this`pool
      ensures pool == Kept(old(pool), now) && stale == Stale(old(pool), now)
    {
      stale := [];
      var all: Stack := [];
      ghost var kept, gone := Kept(pool, now), Stale(pool, now);
      while |pool| > 0
        invariant all + Kept(pool, now) == kept && stale + Stale(pool, now) == gone
        decreases |pool|
      {
        var c := pool[|pool| - 1];
        pool := pool[..|pool| - 1];
        if c.Live(now) {
          all := all + [c];
        } else {
          stale := stale + [c.conn];
        }
      }
      for i := 0 to |all|
        invariant pool == all[..i]
      {
        pool := pool + [all[i]];
      }
    }
  }

  // ----- the pool of pools -----

  /** Where a connection is: on the stack of a slot, with a client, or gone. */
  datatype Place = Idle(slot: PoolKey, index: nat) | Out | Destroyed

  type Places = map<Conn, Place>

  type Pools = map<PoolKey, Pooled>

  function StackAt(pools: Pools, k: PoolKey): Stack {
    if k in pools then pools[k].stack else []
  }

  /** How many connections were made for a slot. */
  function CreatedAt(pools: Pools, k: PoolKey): nat {
    if k in pools then pools[k].created else 0
  }

  /** Every idle connection is where it is said to be, and no stack holds any other or exceeds
      the cap. So no connection is in two places, and none is lost. */
  ghost predicate Sound(pools: Pools, places: Places) {
    (forall k, i :: k in pools && 0 <= i < |pools[k].stack| ==>
      pools[k].stack[i].conn in places && places[pools[k].stack[i].conn] == Idle(k, i)) &&
    (forall c :: c in places && places[c].Idle? ==>
      var s := StackAt(pools, places[c].slot);
      places[c].index < |s| && s[places[c].index].conn == c) &&
    forall k :: k in pools ==> |pools[k].stack| <= MAX_PER_HOST
  }

  /** When an idle connection was given back. */
  function IdleSince(pools: Pools, places: Places, c: Conn): int
    requires Sound(pools, places) && c in places && places[c].Idle?
  {
    StackAt(pools, places[c].slot)[places[c].index].when
  }

  /** An idle connection still has the timeout it was returned with. */
  ghost predicate TimeoutsKept(conns: Connections, places: Places) {
    forall c :: c in places && places[c].Idle? ==> c in conns && conns[c].soTimeout == places[c].slot.timeout
  }

  /** What taking the live connection nearest the top does: those above it go. */
  function Taken(places: Places, slot: PoolKey, n: nat): Places {
    map c | c in places ::
      if places[c].Idle? && places[c].slot == slot && places[c].index >= n then Destroyed
      else if places[c].Idle? && places[c].slot == slot && places[c].index == n - 1 then Out
      else places[c]
  }

  lemma TakenSound(pools: Pools, conns: Connections, places: Places, slot: PoolKey, n: nat, after: Pooled)
    requires Sound(pools, places) && TimeoutsKept(conns, places) && n <= |StackAt(pools, slot)|
    requires after.stack == if n == 0 then [] else StackAt(pools, slot)[..n - 1]
    ensures Sound(pools[slot := after], Taken(places, slot, n)) && TimeoutsKept(conns, Taken(places, slot, n))
    ensures n > 0 ==> var top := StackAt(pools, slot)[n - 1].conn; top in conns && conns[top].soTimeout == slot.timeout
  {
  }

  lemma StackedConns(pools: Pools, conns: Connections, places: Places, slot: PoolKey)
    requires Sound(pools, places) && TimeoutsKept(conns, places)
    ensures forall i :: 0 <= i < |StackAt(pools, slot)| ==> StackAt(pools, slot)[i].conn in conns
  {
  }

  lemma CreatedSound(pools: Pools, conns: Connections, places: Places, slot: PoolKey, c: Conn, made: DBClientBase)
    requires Sound(pools, places) && TimeoutsKept(conns, places) && slot in pools && c !in places
    ensures Sound(pools[slot := Pooled(pools[slot].stack, pools[slot].created + 1)], places[c := Out])
    ensures TimeoutsKept(conns[c := made], places[c := Out])
  {
  }

  lemma StoredSound(pools: Pools, conns: Connections, places: Places, slot: PoolKey, sc: StoredConnection, kept: bool,
                    after: Pooled)
    requires Sound(pools, places) && TimeoutsKept(conns, places) && (kept ==> |StackAt(pools, slot)| < MAX_PER_HOST)
    requires sc.conn in places && places[sc.conn] == Out
    requires sc.conn in conns && conns[sc.conn].soTimeout == slot.timeout
    requires after.stack == if kept then StackAt(pools, slot) + [sc] else StackAt(pools, slot)
    ensures var to := if kept then Idle(slot, |StackAt(pools, slot)|) else Destroyed;
      Sound(pools[slot := after], places[sc.conn := to]) && TimeoutsKept(conns, places[sc.conn := to])
  {
  }

  lemma {:induction false} ReversedAt(s: Stack, i: nat)
    requires i < |s|
    ensures |Reversed(s)| == |s| && Reversed(s)[|s| - 1 - i] == s[i]
  {
    if i < |s| - 1 {
      ReversedAt(s[..|s| - 1], i);
    } else if |s| > 1 {
      ReversedAt(s[..|s| - 1], 0);
    }
  }

  lemma {:induction false} ReversedLength(s: Stack)
    ensures |Reversed(s)| == |s|
  {
    if s != [] {
      ReversedLength(s[..|s| - 1]);
    }
  }

  /** How many live connections lie above index `i`: where it comes to lie in what is kept. */
  function Above(s: Stack, now: int, i: nat): nat
    requires i < |s|
  {
    if i == |s| - 1 then 0 else (if s[|s| - 1].Live(now) then 1 else 0) + Above(s[..|s| - 1], now, i)
  }

  lemma {:induction false} KeptAt(s: Stack, now: int, i: nat)
    requires i < |s|
    ensures s[i].Live(now) ==> Above(s, now, i) < |Kept(s, now)| && Kept(s, now)[Above(s, now, i)] == s[i]
    ensures !s[i].Live(now) ==> s[i].conn in Stale(s, now)
  {
    if i < |s| - 1 {
      KeptAt(s[..|s| - 1], now, i);
    }
  }

  lemma {:induction false} KeptFrom(s: Stack, now: int, j: nat) returns (i: nat)
    requires j < |Kept(s, now)|
    ensures i < |s| && s[i].Live(now) && Above(s, now, i) == j && Kept(s, now)[j] == s[i]
  {
    var live := s[|s| - 1].Live(now);
    if live && j == 0 {
      i := |s| - 1;
    } else {
      i := KeptFrom(s[..|s| - 1], now, if live then j - 1 else j);
    }
  }

  lemma {:induction false} StaleFrom(s: Stack, now: int, c: Conn) returns (i: nat)
    requires c in Stale(s, now)
    ensures i < |s| && !s[i].Live(now) && s[i].conn == c
  {
    if !s[|s| - 1].Live(now) && c == s[|s| - 1].conn {
      i := |s| - 1;
    } else {
      i := StaleFrom(s[..|s| - 1], now, c);
    }
  }

  lemma {:induction false} KeptNoMore(s: Stack, now: int)
    ensures |Kept(s, now)| <= |s|
  {
    if s != [] {
      KeptNoMore(s[..|s| - 1], now);
    }
  }

  lemma {:induction false} PoppedAt(s: Stack, n: nat, i: nat)
    requires n <= i < |s|
    ensures s[i].conn in Popped(s, n)
  {
    if i < |s| - 1 {
      PoppedAt(s[..|s| - 1], n, i);
    }
  }

  lemma {:induction false} PoppedFrom(s: Stack, n: nat, c: Conn) returns (i: nat)
    requires n <= |s| && c in Popped(s, n)
    ensures n <= i < |s| && s[i].conn == c
  {
    i := |s| - 1;
    if s[i].conn != c {
      i := PoppedFrom(s[..|s| - 1], n, c);
    }
  }

  /** These, each once, are the connections that were idle before and are now gone. */
  ghost predicate JustDestroyed(conns: seq<Conn>, before: Places, after: Places)
  {
    Distinct(conns) && before.Keys == after.Keys &&
    forall c :: c in conns <==> c in before && before[c].Idle? && after[c] == Destroyed
  }

  /** What taking a connection pops is just what it destroys, each once. */
  lemma PoppedDestroyed(pools: Pools, places: Places, slot: PoolKey, n: nat)
    requires Sound(pools, places) && n <= |StackAt(pools, slot)|
    ensures var popped, after := Popped(StackAt(pools, slot), n), Taken(places, slot, n);
      JustDestroyed(popped, places, after)
  {
    var s := StackAt(pools, slot);
    forall c
      ensures c in Popped(s, n) <==> c in places && places[c].Idle? && Taken(places, slot, n)[c] == Destroyed
    {
      if c in Popped(s, n) {
        var i := PoppedFrom(s, n, c);
        assert places[s[i].conn] == Idle(slot, i);
      } else if c in places && places[c].Idle? && places[c].slot == slot && places[c].index >= n {
        PoppedAt(s, n, places[c].index);
      }
    }
    if slot in pools {
      PoppedDistinct(pools, places, slot, |s|, n);
      assert s[..|s|] == s;
    }
  }

  lemma {:induction false} PoppedDistinct(pools: Pools, places: Places, k: PoolKey, h: nat, n: nat)
    requires Sound(pools, places) && k in pools && n <= h <= |pools[k].stack|
    ensures Distinct(Popped(pools[k].stack[..h], n))
  {
    var s := pools[k].stack;
    if h > n {
      PoppedDistinct(pools, places, k, h - 1, n);
      assert s[..h][..h - 1] == s[..h - 1];
      var c := s[h - 1].conn;
      if c in Popped(s[..h - 1], n) {
        var _ := PoppedFrom(s[..h - 1], n, c);
      }
      DistinctJoin([s[h - 1].conn], Popped(s[..h - 1], n));
    }
  }

  lemma StaleLies(pools: Pools, places: Places, k: PoolKey, h: nat, now: int, c: Conn)
    requires Sound(pools, places) && k in pools && h <= |pools[k].stack| && c in Stale(pools[k].stack[..h], now)
    ensures c in places && places[c].Idle? && places[c].slot == k && places[c].index < h
  {
    var s := pools[k].stack;
    var i := StaleFrom(s[..h], now, c);
    assert places[s[i].conn] == Idle(k, i);
  }

  lemma {:induction false} StaleDistinct(pools: Pools, places: Places, k: PoolKey, h: nat, now: int)
    requires Sound(pools, places) && k in pools && h <= |pools[k].stack|
    ensures Distinct(Stale(pools[k].stack[..h], now))
  {
    var s := pools[k].stack;
    if h > 0 {
      StaleDistinct(pools, places, k, h - 1, now);
      assert s[..h][..h - 1] == s[..h - 1];
      var c, below := s[h - 1].conn, Stale(s[..h - 1], now);
      if c in below {
        StaleLies(pools, places, k, h - 1, now, c);
      }
      DistinctJoin(if s[h - 1].Live(now) then [] else [c], below);
    }
  }

  /** A flush puts every stack upside down. */
  function Flushed(pools: Pools, places: Places): Places
    requires Sound(pools, places)
  {
    map c | c in places ::
      if places[c].Idle? then
        Idle(places[c].slot, |StackAt(pools, places[c].slot)| - 1 - places[c].index)
      else places[c]
  }

  /** A cleanup destroys what has expired and puts the rest upside down. */
  function Cleaned(pools: Pools, places: Places, now: int): Places
    requires Sound(pools, places)
  {
    map c | c in places ::
      if places[c].Idle? then
        var s, i := StackAt(pools, places[c].slot), places[c].index;
        if s[i].Live(now) then Idle(places[c].slot, Above(s, now, i)) else Destroyed
      else places[c]
  }

  /** Every stack is upside down, but for those still to do. */
  ghost predicate AllFlushed(pools: Pools, after: Pools, todo: set<PoolKey>) {
    after.Keys == pools.Keys &&
    forall k :: k in pools ==> after[k].stack == if k in todo then pools[k].stack else Reversed(pools[k].stack)
  }

  ghost predicate AllCleaned(pools: Pools, after: Pools, todo: set<PoolKey>, now: int) {
    after.Keys == pools.Keys &&
    forall k :: k in pools ==> after[k].stack == if k in todo then pools[k].stack else Kept(pools[k].stack, now)
  }

  lemma CleanedNext(pools: Pools, after: Pools, todo: set<PoolKey>, k: PoolKey, p: Pooled, now: int)
    requires AllCleaned(pools, after, todo + {k}, now) && k in pools && k !in todo
    requires p.stack == Kept(pools[k].stack, now)
    ensures AllCleaned(pools, after[k := p], todo, now)
  {
  }

  lemma FlushedHolds(pools: Pools, places: Places, k: PoolKey, j: nat)
    requires Sound(pools, places) && k in pools && j < |Reversed(pools[k].stack)|
    ensures var c := Reversed(pools[k].stack)[j].conn; c in places && Flushed(pools, places)[c] == Idle(k, j)
  {
    var s := pools[k].stack;
    ReversedLength(s);
    var i := |s| - 1 - j;
    ReversedAt(s, i);
    assert places[s[i].conn] == Idle(k, i);
  }

  lemma FlushedLies(pools: Pools, places: Places, c: Conn)
    requires Sound(pools, places) && c in places && places[c].Idle?
    ensures var to, s := Flushed(pools, places)[c], Reversed(StackAt(pools, places[c].slot));
      to.Idle? && to.slot == places[c].slot && to.index < |s| && s[to.index].conn == c
  {
    ReversedAt(StackAt(pools, places[c].slot), places[c].index);
  }

  lemma FlushedSound(pools: Pools, conns: Connections, places: Places, after: Pools)
    requires Sound(pools, places) && TimeoutsKept(conns, places)
    requires AllFlushed(pools, after, {})
    ensures Sound(after, Flushed(pools, places)) && TimeoutsKept(conns, Flushed(pools, places))
  {
    var next := Flushed(pools, places);
    forall k, j | k in after && 0 <= j < |after[k].stack|
      ensures var c := after[k].stack[j].conn; c in next && next[c] == Idle(k, j)
    {
      FlushedHolds(pools, places, k, j);
    }
    forall c | c in next && next[c].Idle?
      ensures var s := StackAt(after, next[c].slot); next[c].index < |s| && s[next[c].index].conn == c
    {
      FlushedLies(pools, places, c);
    }
    forall k | k in after
      ensures |after[k].stack| <= MAX_PER_HOST
    {
      ReversedLength(pools[k].stack);
    }
  }

  lemma CleanedSound(pools: Pools, conns: Connections, places: Places, now: int, after: Pools)
    requires Sound(pools, places) && TimeoutsKept(conns, places)
    requires AllCleaned(pools, after, {}, now)
    ensures Sound(after, Cleaned(pools, places, now)) && TimeoutsKept(conns, Cleaned(pools, places, now))
  {
    var next := Cleaned(pools, places, now);
    forall k, j | k in after && 0 <= j < |after[k].stack|
      ensures var c := after[k].stack[j].conn; c in next && next[c] == Idle(k, j)
    {
      var i := KeptFrom(pools[k].stack, now, j);
      assert places[pools[k].stack[i].conn] == Idle(k, i);
    }
    forall c | c in next && next[c].Idle?
      ensures var s := StackAt(after, next[c].slot); next[c].index < |s| && s[next[c].index].conn == c
    {
      KeptAt(StackAt(pools, places[c].slot), now, places[c].index);
    }
    forall k | k in after
      ensures |after[k].stack| <= MAX_PER_HOST
    {
      KeptNoMore(pools[k].stack, now);
    }
  }

  class DBConnectionPool {
    /** The pools, by slot: the map's comparison tells keys apart just as slots do. */
    var pools: Pools

    var conns: Connections
    var nextConn: Conn

    /** Every connection ever created, and where it is now. */
    ghost var places: Places

    constructor ()
      ensures Valid() && pools == map[] && places == map[]
    {
      pools, conns, nextConn, places := map[], map[], 0, map[];
    }

    ghost predicate Valid()
      reads this
    {
      conns.Keys == places.Keys && (forall c :: c in places ==> c < nextConn) &&
      Sound(pools, places) && TimeoutsKept(conns, places)
    }

    /** `_pools[...].get(...)`. */
    method Pop(slot: PoolKey, now: int) returns (r: Result<Option<Conn>>, destroyed: seq<Conn>)
      requires forall i :: 0 <= i < |StackAt(pools, slot)| ==> StackAt(pools, slot)[i].conn in conns
      modifies `pools
      ensures var s := StackAt(old(pools), slot);
        var n := LiveHeight(s, now);
        pools == old(pools)[slot := Pooled(if n == 0 then [] else s[..n - 1], CreatedAt(old(pools), slot))] &&
        destroyed == Popped(s, n) &&
        r == if n == 0 then Ok(None)
             else if conns[s[n - 1].conn].soTimeout == slot.timeout then Ok(Some(s[n - 1].conn)) else Threw(ASSERT)
    {
      var p := new PoolForHost(if slot in pools then pools[slot] else Pooled([], 0));
      assert p.pool == StackAt(pools, slot);
      r, destroyed := p.Get(conns, now, slot.timeout);
      pools := pools[slot := Pooled(p.pool, p.created)];
    }

    /** Takes an idle connection that has not expired; those above it that have are destroyed.
        Never throws for the timeout: it is always the one asked for. */
    method TakeIdle(ident: seq<cchar>, timeout: real, now: int) returns (r: Result<Option<Conn>>, destroyed: seq<Conn>)
      requires Valid()
      modifies `pools, `places
      ensures Valid()
      ensures var slot := Slot(PoolKey(ident, timeout));
        var s := StackAt(old(pools), slot);
        var n := LiveHeight(s, now);
        pools == old(pools)[slot := Pooled(if n == 0 then [] else s[..n - 1], CreatedAt(old(pools), slot))] &&
        destroyed == Popped(s, n) &&
        places == Taken(old(places), slot, n) && r == Ok(if n == 0 then None else Some(s[n - 1].conn)) &&
        (n > 0 ==> now - s[n - 1].when < 1800) && ExpiredFrom(s, n, now)
      ensures JustDestroyed(destroyed, old(places), places)
    {
      var slot := Slot(PoolKey(ident, timeout));
      ghost var s := StackAt(pools, slot);
      ghost var n := LiveHeight(s, now);
      StackedConns(pools, conns, places, slot);
      TakenSound(pools, conns, places, slot, n, Pooled(if n == 0 then [] else s[..n - 1], CreatedAt(pools, slot)));
      PoppedDestroyed(pools, places, slot, n);
      ExpiredAbove(s, now);
      r, destroyed := Pop(slot, now);
      places := Taken(places, slot, n);
    }

    /** A connection to the server: an idle one that has not expired, or a new one, if the host is
        valid and answers. */
    method Get(ident: seq<cchar>, timeout: real, now: int, validHost: bool, connects: bool) returns (r: Result<Conn>)
      requires Valid()
      modifies this
      ensures Valid()
      ensures var slot := Slot(PoolKey(ident, timeout));
        var s := StackAt(old(pools), slot);
        var n := LiveHeight(s, now);
        var taken := Taken(old(places), slot, n);
        (n > 0 ==> now - s[n - 1].when < 1800) && ExpiredFrom(s, n, now) &&
        StackAt(pools, slot) == (if n == 0 then [] else s[..n - 1]) &&
        (forall k :: k != slot ==> StackAt(pools, k) == StackAt(old(pools), k)) &&
        CreatedAt(pools, slot) == CreatedAt(old(pools), slot) + (if n == 0 && validHost && connects then 1 else 0) &&
        if n > 0 then r == Ok(s[n - 1].conn) && places == taken && conns == old(conns)
        else if validHost && connects then
          r.Ok? && r.value !in old(places) && places == taken[r.value := Out] &&
          conns == old(conns)[r.value := DBClientBase(timeout, false)]
        else r == Threw(if validHost then 11002 else 13071) && places == taken && conns == old(conns)
    {
      var slot := Slot(PoolKey(ident, timeout));
      var idle, _ := TakeIdle(ident, timeout, now);
      if idle.value.Some? {
        return Ok(idle.value.value);
      }
      if !validHost {
        return Threw(13071);
      }
      if !connects {
        return Threw(CONNECT_ERROR);
      }
      var c := Create(slot);
      return Ok(c);
    }

    method Create(slot: PoolKey) returns (c: Conn)
      requires Valid() && slot in pools
      modifies this
      ensures Valid() && c !in old(places) && places == old(places)[c := Out]
      ensures conns == old(conns)[c := DBClientBase(slot.timeout, false)]
      ensures pools == old(pools)[slot := Pooled(old(pools)[slot].stack, old(pools)[slot].created + 1)]
    {
      c := nextConn;
      CreatedSound(pools, conns, places, slot, c, DBClientBase(slot.timeout, false));
      nextConn := nextConn + 1;
      conns := conns[c := DBClientBase(slot.timeout, false)];
      pools := pools[slot := Pooled(pools[slot].stack, pools[slot].created + 1)];
      places := places[c := Out];
    }

    /** A client may do as it likes with a connection it holds: set another timeout, lose it. */
    method Use(c: Conn, state: DBClientBase)
      requires Valid() && c in places && places[c] == Out
      modifies `conns
      ensures Valid() && conns == old(conns)[c := state]
    {
      conns := conns[c := state];
    }

    /** Gives a connection back: idle in the slot its timeout is for by now, or destroyed. */
    method Release(ident: seq<cchar>, c: Conn, now: int)
      requires Valid() && c in places && places[c] == Out
      modifies `pools, `places
      ensures Valid()
      ensures var slot := Slot(PoolKey(ident, conns[c].soTimeout));
        var s := StackAt(old(pools), slot);
        var kept := !conns[c].failed && |s| < MAX_PER_HOST;
        StackAt(pools, slot) == (if kept then s + [StoredConnection(c, now)] else s) &&
        (forall k :: k != slot ==> StackAt(pools, k) == StackAt(old(pools), k)) &&
        places == old(places)[c := if kept then Idle(slot, |s|) else Destroyed]
      ensures forall k :: CreatedAt(pools, k) == CreatedAt(old(pools), k)
    {
      if conns[c].failed {
        places := places[c := Destroyed];
        return;
      }
      var slot := Slot(PoolKey(ident, conns[c].soTimeout));
      var p := new PoolForHost(if slot in pools then pools[slot] else Pooled([], 0));
      ghost var s := p.pool;
      var destroyed := p.Done(c, now);
      StoredSound(pools, conns, places, slot, StoredConnection(c, now), !destroyed, Pooled(p.pool, p.created));
      pools := pools[slot := Pooled(p.pool, p.created)];
      places := places[c := if destroyed then Destroyed else Idle(slot, |s|)];
    }

    method FlushEach()
      modifies `pools
      ensures AllFlushed(old(pools), pools, {})
    {
      var todo := pools.Keys;
      ghost var was := pools;
      while todo != {}
        invariant todo <= was.Keys && AllFlushed(was, pools, todo)
        decreases |todo|
      {
        var k :| k in todo;
        todo := todo - {k};
        var p := new PoolForHost(pools[k]);
        p.Flush();
        pools := pools[k := Pooled(p.pool, p.created)];
      }
    }

    method Flush()
      requires Valid()
      modifies `pools, `places
      ensures Valid()
      ensures AllFlushed(old(pools), pools, {}) && places == Flushed(old(pools), old(places))
    {
      FlushEach();
      FlushedSound(old(pools), conns, places, pools);
      places := Flushed(old(pools), places);
    }

    method CleanEach(now: int, ghost at: Places) returns (toDelete: seq<Conn>)
      requires Sound(pools, at)
      modifies `pools
      ensures AllCleaned(old(pools), pools, {}, now)
      ensures Distinct(toDelete) && forall c :: c in toDelete <==> ToDelete(old(pools), at, now, {}, c)
    {
      toDelete := [];
      var todo := pools.Keys;
      ghost var was := pools;
      while todo != {}
        invariant todo <= was.Keys && AllCleaned(was, pools, todo, now)
        invariant Distinct(toDelete) && forall c :: c in toDelete <==> ToDelete(was, at, now, todo, c)
        decreases |todo|
      {
        var k :| k in todo;
        assert todo - {k} + {k} == todo;
        todo := todo - {k};
        var p := new PoolForHost(pools[k]);
        var stale := p.GetStaleConnections(now);
        CleanedNext(was, pools, todo, k, Pooled(p.pool, p.created), now);
        pools := pools[k := Pooled(p.pool, p.created)];
        StaleOfSlot(was, at, now, todo, k);
        StaleApart(was, at, now, todo, k, toDelete);
        toDelete := toDelete + stale;
      }
    }

    /** The periodic cleanup: destroys exactly the connections that have been idle too long, each
        once. */
    method TaskDoWork(now: int) returns (toDelete: seq<Conn>)
      requires Valid()
      modifies `pools, `places
      ensures Valid()
      ensures AllCleaned(old(pools), pools, {}, now)
      ensures places == Cleaned(old(pools), old(places), now)
      ensures JustDestroyed(toDelete, old(places), places)
      ensures forall c :: c in toDelete <==>
        c in places && old(places)[c].Idle? && now - IdleSince(old(pools), old(places), c) >= 1800
    {
      toDelete := CleanEach(now, places);
      CleanedSound(old(pools), conns, places, now, pools);
      places := Cleaned(old(pools), places, now);
    }
  }

  /** Expired, in a slot done already. */
  ghost predicate ToDelete(pools: Pools, places: Places, now: int, todo: set<PoolKey>, c: Conn)
    requires Sound(pools, places)
  {
    c in places && places[c].Idle? && places[c].slot !in todo &&
    !StackAt(pools, places[c].slot)[places[c].index].Live(now)
  }

  lemma StaleApart(pools: Pools, places: Places, now: int, todo: set<PoolKey>, k: PoolKey, done: seq<Conn>)
    requires Sound(pools, places) && k in pools && k !in todo && Distinct(done)
    requires forall c :: c in done <==> ToDelete(pools, places, now, todo + {k}, c)
    ensures Distinct(done + Stale(pools[k].stack, now))
  {
    var s := pools[k].stack;
    StaleDistinct(pools, places, k, |s|, now);
    assert s[..|s|] == s;
    forall c | c in Stale(s, now)
      ensures c !in done
    {
      StaleLies(pools, places, k, |s|, now, c);
    }
    DistinctJoin(done, Stale(s, now));
  }

  lemma StaleOfSlot(pools: Pools, places: Places, now: int, todo: set<PoolKey>, k: PoolKey)
    requires Sound(pools, places) && k in pools && k !in todo
    ensures forall c :: ToDelete(pools, places, now, todo, c) <==>
      ToDelete(pools, places, now, todo + {k}, c) || c in Stale(pools[k].stack, now)
  {
    var s := pools[k].stack;
    forall c
      ensures ToDelete(pools, places, now, todo, c) <==>
        ToDelete(pools, places, now, todo + {k}, c) || c in Stale(s, now)
    {
      if c in Stale(s, now) {
        var i := StaleFrom(s, now, c);
        assert places[s[i].conn] == Idle(k, i);
      }
      if c in places && places[c].Idle? && places[c].slot == k {
        KeptAt(s, now, places[c].index);
      }
    }
  }

  // ----- which connection comes next -----

  /** What the next client would take from a stack. */
  function NextTaken(s: Stack, now: int): Option<StoredConnection> {
    var n := LiveHeight(s, now);
    if n == 0 then None else Some(s[n - 1])
  }

  /** The live connection nearest the bottom. */
  function LowestLive(s: Stack, now: int): Option<StoredConnection> {
    if s == [] then None
    else
      var below := LowestLive(s[..|s| - 1], now);
      if below.Some? then below else if s[|s| - 1].Live(now) then Some(s[|s| - 1]) else None
  }

  function LiveCount(s: Stack, now: int): nat {
    if s == [] then 0 else LiveCount(s[..|s| - 1], now) + if s[|s| - 1].Live(now) then 1 else 0
  }

  lemma {:induction false} NextTakenOver(sc: StoredConnection, s: Stack, now: int)
    ensures NextTaken([sc] + s, now) ==
      if NextTaken(s, now).Some? then NextTaken(s, now) else if sc.Live(now) then Some(sc) else None
  {
    if s == [] {
      assert [sc] + s == [sc] && [sc][..0] == [];
    } else {
      var init := s[..|s| - 1];
      assert ([sc] + s)[..|s|] == [sc] + init;
      NextTakenOver(sc, init, now);
    }
  }

  lemma {:induction false} LowestOver(sc: StoredConnection, s: Stack, now: int)
    requires sc.Live(now)
    ensures LowestLive([sc] + s, now) == Some(sc)
  {
    if s == [] {
      assert [sc] + s == [sc] && [sc][..0] == [];
    } else {
      var init := s[..|s| - 1];
      assert ([sc] + s)[..|s|] == [sc] + init;
      LowestOver(sc, init, now);
    }
  }

  /** After a flush or a cleanup the lowest live connection is the next taken. */
  lemma {:induction false} LowestComesNext(s: Stack, now: int)
    ensures NextTaken(Reversed(s), now) == LowestLive(s, now)
    ensures NextTaken(Kept(s, now), now) == LowestLive(s, now)
  {
    if s != [] {
      var init, last := s[..|s| - 1], s[|s| - 1];
      LowestComesNext(init, now);
      NextTakenOver(last, Reversed(init), now);
      NextTakenOver(last, Kept(init, now), now);
      assert [] + Kept(init, now) == Kept(init, now);
    }
  }

  /** Another cleanup makes the top one next again. */
  lemma {:induction false} CleanupTwice(s: Stack, now: int)
    ensures NextTaken(Kept(Kept(s, now), now), now) == NextTaken(s, now)
  {
    LowestComesNext(Kept(s, now), now);
    LowestOfKept(s, now);
  }

  lemma {:induction false} LowestOfKept(s: Stack, now: int)
    ensures LowestLive(Kept(s, now), now) == NextTaken(s, now)
  {
    if s != [] {
      var init, last := s[..|s| - 1], s[|s| - 1];
      if last.Live(now) {
        LowestOver(last, Kept(init, now), now);
      } else {
        assert [] + Kept(init, now) == Kept(init, now);
        LowestOfKept(init, now);
      }
    }
  }

  predicate DistinctConns(s: Stack) {
    forall i, j :: 0 <= i < j < |s| ==> s[i].conn != s[j].conn
  }

  lemma {:induction false} LowestAmong(s: Stack, now: int)
    ensures LowestLive(s, now).None? <==> LiveCount(s, now) == 0
    ensures LowestLive(s, now).Some? ==> LowestLive(s, now).value in s && LowestLive(s, now).value.Live(now)
  {
    if s != [] {
      LowestAmong(s[..|s| - 1], now);
    }
  }

  lemma {:induction false} LowestIsTopIff(s: Stack, now: int)
    requires DistinctConns(s)
    ensures LowestLive(s, now) == NextTaken(s, now) <==> LiveCount(s, now) <= 1
  {
    if s != [] {
      var init, last := s[..|s| - 1], s[|s| - 1];
      LowestAmong(init, now);
      if !last.Live(now) {
        LowestIsTopIff(init, now);
      } else if LowestLive(init, now).Some? {
        var i :| 0 <= i < |init| && init[i] == LowestLive(init, now).value;
        assert s[i].conn != last.conn;
      }
    }
  }

  /** A flush or a cleanup leaves the next connection the same exactly when the slot has no two
      live ones. */
  lemma SameNextIff(s: Stack, now: int)
    requires DistinctConns(s)
    ensures NextTaken(Kept(s, now), now) == NextTaken(s, now) <==> LiveCount(s, now) <= 1
    ensures NextTaken(Reversed(s), now) == NextTaken(s, now) <==> LiveCount(s, now) <= 1
  {
    LowestComesNext(s, now);
    LowestIsTopIff(s, now);
  }

  predicate Ascending(s: Stack) {
    forall i, j :: 0 <= i < j < |s| ==> s[i].when <= s[j].when
  }

  lemma {:induction false} LowestIdleLongest(s: Stack, now: int)
    requires Ascending(s) && LowestLive(s, now).Some?
    ensures forall i :: 0 <= i < |s| && s[i].Live(now) ==> LowestLive(s, now).value.when <= s[i].when
  {
    var init, last := s[..|s| - 1], s[|s| - 1];
    LowestAmong(s, now);
    if LowestLive(init, now).Some? {
      LowestIdleLongest(init, now);
      LowestAmong(init, now);
    } else {
      NoneLive(init, now);
    }
    forall i | 0 <= i < |s| && s[i].Live(now)
      ensures LowestLive(s, now).value.when <= s[i].when
    {
      if i < |init| {
        assert init[i] == s[i];
      } else if LowestLive(init, now).Some? {
        var j :| 0 <= j < |init| && init[j] == LowestLive(init, now).value;
        assert s[j] == init[j];
      }
    }
  }

  lemma {:induction false} NoneLive(s: Stack, now: int)
    requires LowestLive(s, now).None?
    ensures forall i :: 0 <= i < |s| ==> !s[i].Live(now)
  {
    if s != [] {
      NoneLive(s[..|s| - 1], now);
    }
  }

  /** In a stack filled in the order of time, which no flush or cleanup has turned yet, that is the
      live connection idle longest. */
  lemma TurnedTakesIdleLongest(s: Stack, now: int)
    requires Ascending(s) && LiveCount(s, now) > 0
    ensures NextTaken(Kept(s, now), now).Some? && NextTaken(Reversed(s), now) == NextTaken(Kept(s, now), now)
    ensures forall i :: 0 <= i < |s| && s[i].Live(now) ==> NextTaken(Kept(s, now), now).value.when <= s[i].when
  {
    LowestComesNext(s, now);
    LowestAmong(s, now);
    LowestIdleLongest(s, now);
  }
}
