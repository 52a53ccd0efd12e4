/** `DBClientCursor`: a stream of results fetched batch by batch, with a limit and a stack of
    results put back. The server is the list of replies it will give. */
module Cursor {
  import opened Bytes
  import opened Sequences

  /** One reply: the cursor id left on the server, the flags, and the results. */
  datatype Reply<T> = Reply(cursorId: int, notFound: bool, errSet: bool, docs: seq<T>)

  /** The server answers while its cursor lives, and does not lose it. */
  predicate Live<T>(id: int, replies: seq<Reply<T>>)
    decreases |replies|
  {
    id != 0 ==> replies != [] && !replies[0].notFound && Live(replies[0].cursorId, replies[1..])
  }

  /** All results the server has for a cursor. */
  function Results<T>(id: int, replies: seq<Reply<T>>): seq<T>
    decreases |replies|
  {
    if id == 0 || replies == [] then [] else replies[0].docs + Results(replies[0].cursorId, replies[1..])
  }

  /** Those before the first empty reply. */
  function Seen<T>(id: int, replies: seq<Reply<T>>): seq<T>
    decreases |replies|
  {
    if id == 0 || replies == [] || replies[0].docs == [] then []
    else replies[0].docs + Seen(replies[0].cursorId, replies[1..])
  }

  function Prefix<T>(s: seq<T>, n: int): seq<T>
  {
    if n <= 0 then [] else if n >= |s| then s else s[..n]
  }

  /** How many results to ask for: zero leaves it to the server. */
  function NextBatchSize(nToReturn: int, batchSize: int): (n: int)
    ensures nToReturn > 0 && batchSize >= 0 ==> 1 <= n <= nToReturn
    ensures nToReturn == 0 || 0 < batchSize < nToReturn ==> n == batchSize
    ensures nToReturn > 0 && (batchSize == 0 || batchSize >= nToReturn) ==> n == nToReturn
  {
    if nToReturn == 0 then batchSize
    else if batchSize == 0 then nToReturn
    else if batchSize < nToReturn then batchSize
    else nToReturn
  }

  /** How taking in a reply ends: a lost cursor throws, unless it is tailable. */
  function Received<T>(qr: Reply<T>, tailable: bool): Result<()>
  {
    if qr.notFound && qr.cursorId != 0 then Threw(ASSERT)
    else if qr.notFound && !tailable then Threw(13127)
    else Ok(())
  }

  /** The id after a reply: a tailable cursor keeps the one it has, unless it was lost. */
  function NewId<T>(id: int, qr: Reply<T>, tailable: bool): int
  {
    if tailable && id != 0 && !qr.notFound then id else qr.cursorId
  }

  // ----- the state of a cursor -----

  datatype State<T> = State(
    putBack: seq<T>,
    batch: seq<T>,
    pos: nat,
    nToReturn: int,
    cursorId: int,
    replies: seq<Reply<T>>,
    haveLimit: bool,
    tailable: bool)
  {
    predicate Valid()
    {
      pos <= |batch| && (haveLimit ==> nToReturn > 0)
    }

    /** Whether `more` must ask the server. */
    predicate Fetches()
    {
      putBack == [] && (haveLimit ==> pos < nToReturn) && pos >= |batch| && cursorId != 0
    }

    /** `next` has something to give, within the limit. */
    predicate Ready()
    {
      putBack != [] || (pos < |batch| && (haveLimit ==> pos < nToReturn))
    }

    /** After `more`. What the batch brought comes off the limit before another is fetched. */
    function AfterMore(): State<T>
      requires Valid() && (Fetches() ==> replies != [])
    {
      if !Fetches() then this
      else
        this.(batch := replies[0].docs, pos := 0, nToReturn := if haveLimit then nToReturn - |batch| else nToReturn,
              cursorId := NewId(cursorId, replies[0], tailable), replies := replies[1..])
    }

    function Head(): T
      requires Valid() && Ready()
    {
      if putBack != [] then putBack[|putBack| - 1] else batch[pos]
    }

    /** After `next`. */
    function AfterNext(): State<T>
      requires Valid() && Ready()
    {
      if putBack != [] then this.(putBack := putBack[..|putBack| - 1]) else this.(pos := pos + 1)
    }

    /** What is put back comes first; of the rest the limit lets this much through. */
    function Within(rest: seq<T>): seq<T>
      requires Valid()
    {
      Reversed(putBack) + if haveLimit then Prefix(batch[pos..] + rest, nToReturn - pos) else batch[pos..] + rest
    }

    /** The results still to come, in order, as a plain list. */
    function Plain(): seq<T>
      requires Valid()
    {
      Within(Results(cursorId, replies))
    }

    /** Those that `more` will not miss. */
    function Visible(): seq<T>
      requires Valid()
    {
      Within(Seen(cursorId, replies))
    }

    /** How many results are still wanted once this batch is used up; none is no limit. */
    function Wanted(): Option<int>
    {
      if haveLimit then Some(nToReturn - |batch|) else None
    }

    /** Results still wanted come after an empty reply. */
    predicate Hides()
    {
      HidesFrom(cursorId, replies, Wanted())
    }
  }

  /** Before the wanted number of results is reached, an empty reply comes with results after it. */
  predicate HidesFrom<T>(id: int, replies: seq<Reply<T>>, wanted: Option<int>)
    decreases |replies|
  {
    id != 0 && replies != [] && (wanted.Some? ==> wanted.value > 0) &&
    if replies[0].docs == [] then Results(replies[0].cursorId, replies[1..]) != []
    else HidesFrom(replies[0].cursorId, replies[1..], Fewer(wanted, |replies[0].docs|))
  }

  function Fewer(wanted: Option<int>, n: nat): Option<int>
  {
    if wanted.None? then None else Some(wanted.value - n)
  }

  class DBClientCursor<T> {
    var replies: seq<Reply<T>>
    var batch: seq<T>
    var pos: nat
    var nToReturn: int
    const haveLimit: bool
    const batchSize: int
    const tailable: bool
    var cursorId: int
    var putBackStack: seq<T>
    var wasError: bool

    /** The sizes asked of the server so far. */
    ghost var asked: seq<int>

    constructor (replies: seq<Reply<T>>, nToReturn: int, tailable: bool, bs: int)
      ensures Now() == State([], [], 0, nToReturn, 0, replies, nToReturn > 0 && !tailable, tailable)
      ensures Now().Valid() && !wasError && asked == [] && batchSize == if bs == 1 then 2 else bs
    {
      this.replies := replies;
      this.nToReturn := nToReturn;
      this.tailable := tailable;
      haveLimit := nToReturn > 0 && !tailable;
      batchSize := if bs == 1 then 2 else bs;
      batch, pos, cursorId, putBackStack, wasError := [], 0, 0, [], false;
      asked := [];
    }

    function Now(): State<T>
      reads this
    {
      State(putBackStack, batch, pos, nToReturn, cursorId, replies, haveLimit, tailable)
    }

    /** Takes in one reply. */
    method DataReceived(qr: Reply<T>) returns (r: Result<()>)
      modifies this`wasError, this`cursorId, this`batch, this`pos
      ensures wasError == (old(wasError) || qr.errSet)
      ensures r == Received(qr, tailable)
      ensures r ==
        if qr.notFound && qr.cursorId != 0 then Threw(ASSERT)
        else if qr.notFound && !tailable then Threw(13127)
        else Ok(())
      ensures r.Ok? ==>
        cursorId == if tailable && old(cursorId) != 0 && !qr.notFound then old(cursorId) else qr.cursorId
      ensures r.Ok? ==> batch == qr.docs && pos == 0 && cursorId == NewId(old(cursorId), qr, tailable)
      ensures r.Threw? ==> batch == old(batch) && pos == old(pos)
      ensures r.Threw? ==> cursorId == if qr.cursorId == 0 then 0 else old(cursorId)
    {
      if qr.errSet {
        wasError := true;
      }
      if qr.notFound {
        if qr.cursorId != 0 {
          return Threw(ASSERT);
        }
        cursorId := 0;
        if !tailable {
          return Threw(13127);
        }
      }
      if cursorId == 0 || !tailable {
        cursorId := qr.cursorId;
      }
      batch := qr.docs;
      pos := 0;
      return Ok(());
    }

    /** Sends the query and takes in the first reply; false when there is none. */
    method Init() returns (r: Result<bool>)
      requires Now().Valid() && batch == [] && putBackStack == [] && cursorId == 0
      modifies this
      ensures asked == old(asked) + [NextBatchSize(nToReturn, batchSize)]
      ensures old(replies) == [] ==> r == Ok(false) && Now() == old(Now())
      ensures old(replies) != [] ==> (r.Ok? <==> Received(old(replies)[0], tailable).Ok?)
      ensures old(replies) != [] && r.Ok? ==>
        r.value && Now().Valid() &&
        Now() == old(Now()).(batch := old(replies)[0].docs, cursorId := old(replies)[0].cursorId,
                             replies := old(replies)[1..])
    {
      asked := asked + [NextBatchSize(nToReturn, batchSize)];
      if replies == [] {
        return Ok(false);
      }
      var reply := replies[0];
      replies := replies[1..];
      var _ :- DataReceived(reply);
      return Ok(true);
    }

    /** Asks the server for more. With a limit, what this batch brought comes off it first, and
        something is left to ask for. */
    method RequestMore() returns (r: Result<()>)
      requires Now().Valid() && Now().Fetches() && pos == |batch| && replies != []
      modifies this
      ensures r == Received(old(replies)[0], tailable)
      ensures r.Ok? ==> Now().Valid() && Now() == old(Now()).AfterMore()
      ensures haveLimit ==> nToReturn > 0
      ensures asked == old(asked) + [NextBatchSize(nToReturn, batchSize)]
      ensures haveLimit && batchSize >= 0 ==> 1 <= asked[|old(asked)|] <= nToReturn
      ensures nToReturn == old(Now()).AfterMore().nToReturn
      ensures replies == old(replies)[1..] && putBackStack == old(putBackStack)
    {
      assert cursorId != 0 && pos == |batch|;
      if haveLimit {
        nToReturn := nToReturn - |batch|;
        assert nToReturn > 0;
      }
      asked := asked + [NextBatchSize(nToReturn, batchSize)];
      var reply := replies[0];
      replies := replies[1..];
      r := DataReceived(reply);
    }

    /** Whether there are more results, fetching a batch if need be; the answer is whether the state
        it leaves has one. */
    method More() returns (r: Result<bool>)
      requires Now().Valid() && (cursorId != 0 ==> replies != [])
      modifies this
      ensures r.Threw? <==> old(Now()).Fetches() && Received(old(replies)[0], tailable).Threw?
      ensures r.Ok? ==> Now().Valid() && Now() == old(Now()).AfterMore() && r.value == Now().Ready()
    {
      if putBackStack != [] {
        return Ok(true);
      }
      if haveLimit && pos >= nToReturn {
        return Ok(false);
      }
      if pos < |batch| {
        return Ok(true);
      }
      if cursorId == 0 {
        return Ok(false);
      }
      var _ :- RequestMore();
      return Ok(pos < |batch|);
    }

    /** The next result; a put-back one first. Without `more` before it, `next` throws at the
        end of a batch, and past the limit it gives what the batch holds. */
    method Next() returns (r: Result<T>)
      requires Now().Valid()
      modifies this`pos, this`putBackStack
      ensures Now().Valid()
      ensures old(Now()).Ready() ==> r == Ok(old(Now()).Head()) && Now() == old(Now()).AfterNext()
      ensures old(putBackStack) == [] ==>
        putBackStack == [] &&
        if old(pos) < |batch| then r == Ok(batch[old(pos)]) && pos == old(pos) + 1
        else r == Threw(13422) && pos == old(pos)
    {
      if putBackStack != [] {
        var ret := putBackStack[|putBackStack| - 1];
        putBackStack := putBackStack[..|putBackStack| - 1];
        return Ok(ret);
      }
      if pos >= |batch| {
        return Threw(13422);
      }
      pos := pos + 1;
      return Ok(batch[pos - 1]);
    }

    /** Restores a result: it comes next. */
    method PutBack(o: T)
      requires Now().Valid()
      modifies this`putBackStack
      ensures Now().Valid() && Now() == Given(old(Now()), o)
    {
      putBackStack := putBackStack + [o];
    }

    /** Counts the rest of the cursor by using it up, or to the first empty reply. */
    method ItCount() returns (c: nat)
      requires Now().Valid() && !tailable && Live(cursorId, replies)
      modifies this
      ensures c == |old(Now()).Visible()| && Now().Valid() && Live(cursorId, replies)
    {
      c := 0;
      ghost var goal := |Now().Visible()|;
      while true
        invariant Now().Valid() && Live(cursorId, replies) && c + |Now().Visible()| == goal
        decreases |Now().Visible()|
      {
        TakeSees(Now());
        var more := More();
        if !more.value {
          break;
        }
        var _ := Next();
        c := c + 1;
      }
    }
  }

  // ----- whole runs -----

  /** What a client does: take the next result if `more` says there is one, or give one back. */
  datatype Step<T> = Take | Give(o: T)

  function Given<T>(s: State<T>, o: T): State<T>
  {
    s.(putBack := s.putBack + [o])
  }

  /** `if more() then next()`. */
  function Taken<T>(s: State<T>): (Option<T>, State<T>)
    requires Steady(s)
  {
    var m := s.AfterMore();
    if m.Ready() then (Some(m.Head()), m.AfterNext()) else (None, m)
  }

  /** A valid cursor, not tailable, whose server answers. */
  predicate Steady<T>(s: State<T>)
  {
    s.Valid() && !s.tailable && Live(s.cursorId, s.replies)
  }

  lemma TakenSteady<T>(s: State<T>)
    requires Steady(s)
    ensures Steady(Taken(s).1)
  {
  }

  function RunOn<T>(s: State<T>, steps: seq<Step<T>>): (seq<Option<T>>, State<T>)
    requires Steady(s)
    decreases |steps|
  {
    if steps == [] then ([], s)
    else if steps[0].Give? then RunOn(Given(s, steps[0].o), steps[1..])
    else
      TakenSteady(s);
      var (o, after) := Taken(s);
      var (out, end) := RunOn(after, steps[1..]);
      ([o] + out, end)
  }

  /** The same steps on a plain list: what each Take yields, and what is left. */
  function ListRun<T>(l: seq<T>, steps: seq<Step<T>>): (seq<Option<T>>, seq<T>)
    decreases |steps|
  {
    if steps == [] then ([], l)
    else if steps[0].Give? then ListRun([steps[0].o] + l, steps[1..])
    else
      var (out, left) := ListRun(if l == [] then [] else l[1..], steps[1..]);
      ([if l == [] then None else Some(l[0])] + out, left)
  }

  method TakeNext<T>(c: DBClientCursor<T>) returns (taken: Option<T>)
    requires Steady(c.Now())
    modifies c
    ensures (taken, c.Now()) == Taken(old(c.Now())) && Steady(c.Now())
  {
    TakenSteady(c.Now());
    var more := c.More();
    if !more.value {
      return None;
    }
    var next := c.Next();
    return Some(next.value);
  }

  /** Any run of a client, whatever replies the server gives. Nothing throws, and no assertion
      fires. */
  method Run<T>(c: DBClientCursor<T>, steps: seq<Step<T>>) returns (out: seq<Option<T>>)
    requires Steady(c.Now())
    modifies c
    ensures (out, c.Now()) == RunOn(old(c.Now()), steps)
    decreases |steps|
  {
    if steps == [] {
      return [];
    }
    match steps[0] {
      case Give(o) =>
        c.PutBack(o);
        out := Run(c, steps[1..]);
      case Take =>
        var taken := TakeNext(c);
        out := Run(c, steps[1..]);
        out := [taken] + out;
    }
  }

  // ----- refinement -----

  lemma NextWithin<T>(s: State<T>, rest: seq<T>)
    requires s.Valid() && s.Ready()
    ensures s.AfterNext().Valid() && s.Within(rest) == [s.Head()] + s.AfterNext().Within(rest)
  {
    if s.putBack == [] {
      assert s.batch[s.pos..] == [s.batch[s.pos]] + s.batch[s.pos + 1..];
      assert s.batch[s.pos..] + rest == [s.batch[s.pos]] + (s.batch[s.pos + 1..] + rest);
    }
  }

  lemma PrefixJoin<T>(s: seq<T>, t: seq<T>, n: int)
    ensures Prefix(s + t, n) == if n <= |s| then Prefix(s, n) else s + Prefix(t, n - |s|)
  {
  }

  lemma FetchWithin<T>(s: State<T>, rest: seq<T>)
    requires s.Valid() && s.Fetches() && s.replies != []
    ensures s.AfterMore().Valid() && s.AfterMore().Within(rest) == s.Within(s.replies[0].docs + rest)
  {
    var docs := s.replies[0].docs;
    assert s.batch[s.pos..] == [] && docs[0..] == docs;
    assert [] + (docs + rest) == docs + rest;
  }

  lemma NothingWithin<T>(s: State<T>)
    requires s.Valid() && !s.Ready() && !s.Fetches()
    ensures s.cursorId == 0 ==> s.Within([]) == []
    ensures s.cursorId != 0 ==> forall rest :: s.Within(rest) == []
  {
  }

  /** A take gives the head of what is visible, or nothing when nothing is. */
  lemma TakeSees<T>(s: State<T>)
    requires Steady(s)
    ensures var (o, after) := Taken(s);
      Steady(after) &&
      if s.Visible() == [] then o == None else o == Some(s.Visible()[0]) && after.Visible() == s.Visible()[1..]
  {
    TakenSteady(s);
    var m := s.AfterMore();
    if s.Fetches() {
      FetchWithin(s, Seen(m.cursorId, m.replies));
      if s.replies[0].docs == [] {
        assert !m.Ready();
        EmptyWithin(s);
      }
    } else if !s.Ready() {
      NothingWithin(s);
    }
    if m.Ready() {
      NextWithin(m, Seen(m.cursorId, m.replies));
    }
  }

  lemma EmptyWithin<T>(s: State<T>)
    requires s.Valid() && s.Fetches() && s.replies != []
    ensures s.Within([]) == []
  {
  }

  // ----- which results an empty reply hides -----

  function Cut<T>(s: seq<T>, wanted: Option<int>): seq<T>
  {
    if wanted.None? then s else Prefix(s, wanted.value)
  }

  lemma CutJoin<T>(s: seq<T>, t: seq<T>, wanted: Option<int>)
    ensures Cut(s + t, wanted) ==
      if wanted.Some? && wanted.value <= |s| then Cut(s, wanted) else s + Cut(t, Fewer(wanted, |s|))
  {
  }

  /** What is seen of the results wanted falls short exactly when an empty reply hides some. */
  lemma {:induction false} HidesFromIff<T>(id: int, replies: seq<Reply<T>>, wanted: Option<int>)
    ensures var seen, all := Cut(Seen(id, replies), wanted), Cut(Results(id, replies), wanted);
      if HidesFrom(id, replies, wanted) then |seen| < |all| else seen == all
    decreases |replies|
  {
    if id != 0 && replies != [] {
      var docs, next, rest := replies[0].docs, replies[0].cursorId, replies[1..];
      if docs == [] {
        assert docs + Results(next, rest) == Results(next, rest);
      } else {
        HidesFromIff(next, rest, Fewer(wanted, |docs|));
        CutJoin(docs, Seen(next, rest), wanted);
        CutJoin(docs, Results(next, rest), wanted);
      }
    }
  }

  lemma WithinCut<T>(s: State<T>, rest: seq<T>)
    requires s.Valid()
    ensures var here := s.batch[s.pos..];
      s.Within(rest) == Reversed(s.putBack) +
        if s.haveLimit && s.nToReturn <= |s.batch| then Prefix(here, s.nToReturn - s.pos)
        else here + Cut(rest, s.Wanted())
  {
    PrefixJoin(s.batch[s.pos..], rest, s.nToReturn - s.pos);
  }

  /** `more` misses results exactly when an empty reply hides some that are wanted. */
  lemma HidesIff<T>(s: State<T>)
    requires s.Valid()
    ensures if s.Hides() then |s.Visible()| < |s.Plain()| else s.Visible() == s.Plain()
  {
    HidesFromIff(s.cursorId, s.replies, s.Wanted());
    WithinCut(s, Seen(s.cursorId, s.replies));
    WithinCut(s, Results(s.cursorId, s.replies));
  }

  lemma TakenHides<T>(s: State<T>)
    requires Steady(s) && !s.Hides()
    ensures !Taken(s).1.Hides()
  {
  }

  lemma GivenWithin<T>(s: State<T>, o: T, rest: seq<T>)
    requires s.Valid()
    ensures Given(s, o).Valid() && Given(s, o).Within(rest) == [o] + s.Within(rest)
  {
    var t := Given(s, o);
    assert t.putBack[..|s.putBack|] == s.putBack;
    assert Reversed(t.putBack) == [o] + Reversed(s.putBack);
  }

  lemma GivenSees<T>(s: State<T>, o: T)
    requires Steady(s)
    ensures var t := Given(s, o);
      Steady(t) && t.Visible() == [o] + s.Visible() && t.Plain() == [o] + s.Plain() && t.Hides() == s.Hides()
  {
    GivenWithin(s, o, Seen(s.cursorId, s.replies));
    GivenWithin(s, o, Results(s.cursorId, s.replies));
  }

  lemma {:induction false} RunRefines<T>(s: State<T>, steps: seq<Step<T>>)
    requires Steady(s) && !s.Hides()
    ensures RunOn(s, steps).0 == ListRun(s.Plain(), steps).0
    ensures RunOn(s, steps).1.Valid() && RunOn(s, steps).1.Plain() == ListRun(s.Plain(), steps).1
    decreases |steps|
  {
    HidesIff(s);
    if steps != [] {
      if steps[0].Give? {
        GivenSees(s, steps[0].o);
        RunRefines(Given(s, steps[0].o), steps[1..]);
      } else {
        TakeSees(s);
        TakenHides(s);
        var after := Taken(s).1;
        HidesIff(after);
        RunRefines(after, steps[1..]);
      }
    }
  }

  function Takes<T>(n: nat): seq<Step<T>>
  {
    seq(n, _ => Take)
  }

  lemma {:induction false} TakesEnd<T>(s: State<T>, n: nat)
    requires Steady(s) && n == |s.Visible()|
    ensures |RunOn(s, Takes(n + 1)).0| == n + 1 && RunOn(s, Takes(n + 1)).0[n] == None
    decreases n
  {
    var steps := Takes<T>(n + 1);
    assert steps[0] == Take && steps[1..] == Takes(n);
    TakeSees(s);
    if n == 0 {
      assert RunOn(Taken(s).1, steps[1..]).0 == [];
    } else {
      TakesEnd(Taken(s).1, n - 1);
    }
  }

  lemma {:induction false} ListTakes<T>(l: seq<T>, n: nat)
    requires n < |l|
    ensures |ListRun(l, Takes(n + 1)).0| == n + 1 && ListRun(l, Takes(n + 1)).0[n] == Some(l[n])
    decreases n
  {
    var steps := Takes<T>(n + 1);
    assert steps[0] == Take && steps[1..] == Takes(n);
    if n == 0 {
      assert ListRun(l[1..], steps[1..]).0 == [];
    } else {
      ListTakes(l[1..], n - 1);
    }
  }

  /** Where an empty reply hides results, taking until nothing is visible loses one. */
  lemma RunLoses<T>(s: State<T>)
    requires Steady(s) && s.Hides()
    ensures RunOn(s, Takes(|s.Visible()| + 1)).0 != ListRun(s.Plain(), Takes(|s.Visible()| + 1)).0
  {
    HidesIff(s);
    TakesEnd(s, |s.Visible()|);
    ListTakes(s.Plain(), |s.Visible()|);
  }

  /** All runs of a cursor are runs over the plain list of its results if and only if no empty
      reply comes before results still wanted. */
  lemma RefinesIff<T>(s: State<T>)
    requires Steady(s)
    ensures (forall steps :: RunOn(s, steps).0 == ListRun(s.Plain(), steps).0) <==> !s.Hides()
  {
    if s.Hides() {
      RunLoses(s);
    } else {
      forall steps
        ensures RunOn(s, steps).0 == ListRun(s.Plain(), steps).0
      {
        RunRefines(s, steps);
      }
    }
  }

  /** After the first reply the cursor stands for all results of the query, up to the limit. */
  lemma StartsWithAll<T>(replies: seq<Reply<T>>, nToReturn: int)
    requires replies != []
    ensures var s := State([], replies[0].docs, 0, nToReturn, replies[0].cursorId, replies[1..], nToReturn > 0, false);
      s.Plain() == if nToReturn > 0 then Prefix(Results(1, replies), nToReturn) else Results(1, replies)
  {
    assert replies[0].docs[0..] == replies[0].docs;
  }

  /** A result lost: the second of three replies is empty, and the last one is not reached until
      `more` is asked again. */
  lemma EmptyReplyHides()
    ensures var s := State([], [10], 0, 0, 7, [Reply(7, false, false, []), Reply(0, false, false, [20])], false, false);
      s.Hides() && s.Plain() == [10, 20] && RunOn(s, [Take, Take, Take]).0 == [Some(10), None, Some(20)]
  {
    var last := Reply(0, false, false, [20]);
    var replies := [Reply(7, false, false, []), last];
    assert replies[1..] == [last] && [last][1..] == [];
    assert Results(7, [last]) == [20] + Results(0, []);
    assert Results(7, replies) == [] + Results(7, [last]);
    var s := State([], [10], 0, 0, 7, replies, false, false);
    assert Live(7, [last]);
    var s1 := s.(pos := 1);
    var s2 := s1.(batch := [], pos := 0, replies := [last]);
    var s3 := s2.(batch := [20], pos := 1, cursorId := 0, replies := []);
    assert Taken(s) == (Some(10), s1) && Taken(s1) == (None, s2) && Taken(s2) == (Some(20), s3);
    var one: seq<Step<int>>, two: seq<Step<int>>, three: seq<Step<int>> := [Take], [Take, Take], [Take, Take, Take];
    assert three[1..] == two && two[1..] == one && one[1..] == [];
    assert RunOn(s2, one).0 == [Some(20)];
    assert RunOn(s1, two).0 == [None, Some(20)];
  }
}
