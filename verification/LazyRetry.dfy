/** Lazy queries over a replica set: `DBClientReplicaSet::say` sends, `checkResponse` looks at
    what came back and may ask for a retry. Together they try three secondaries, then the
    master once. */
module LazyRetry {
  import opened Bytes
  import opened BsonFormat
  import opened BsonDotted

  const DB_QUERY: int := 2004
  const NOT_MASTER_OR_SECONDARY: int := 13436
  const MAX_RETRIES: nat := 3

  /** How one attempt to reach a server and send goes: it throws, leaving that connection (if
      any) in place, or the message goes out on a connection. */
  datatype Sending = Failed(left: Option<nat>, code: nat) | Sent(conn: nat)

  /** The connection an attempt leaves in place. */
  function Left(s: Sending): Option<nat> {
    if s.Sent? then Some(s.conn) else s.left
  }

  /** An attempt, and what the server answers if it is reached (-1 results: nothing usable). */
  datatype Attempt = Attempt(sending: Sending, nReturned: int, data: Doc)

  datatype LazyState = LazyState(lastClient: Option<nat>, lastOp: int, slaveOk: bool, retries: nat)

  const FRESH: LazyState := LazyState(None, -1, false, 0)

  const ERR_FIELD: seq<byte> := [36, 101, 114, 114]   // "$err"
  const CODE_FIELD: seq<byte> := [99, 111, 100, 101]  // "code"

  /** Whether an answer means the server is no longer a secondary; throws when the error code is
      no int. */
  function NotSecondary(nReturned: int, data: Doc): (r: Result<bool>)
    ensures nReturned == -1 ==> r == Ok(true)
    ensures nReturned != -1 && nReturned != 1 ==> r == Ok(false)
    ensures var err, code := GetField(data, [36, 101, 114, 114]).value, GetField(data, [99, 111, 100, 101]).value;
      nReturned == 1 ==>
        (err == EOO || code == EOO ==> r == Ok(false)) &&
        (err != EOO && code == NumberInt(13436) ==> r == Ok(true)) &&
        (err != EOO && code.NumberInt? && code != NumberInt(13436) ==> r == Ok(false)) &&
        (err != EOO && code != EOO && !code.NumberInt? ==> r == Threw(13111))
  {
    if nReturned == -1 then Ok(true)
    else if nReturned != 1 then Ok(false)
    else
      var code := GetField(data, CODE_FIELD).value;
      if GetField(data, ERR_FIELD).value.EOO? || code.EOO? then Ok(false)
      else if !code.NumberInt? then Threw(13111)
      else Ok(code.n == NOT_MASTER_OR_SECONDARY)
  }

  /** The protocol as one plain loop, from attempt `i` on: secondaries in turn until one
      answers as such, then the master, whose answer stands. */
  function PlainLoop(slaves: seq<Attempt>, master: Attempt, i: nat): Result<Attempt>
    requires |slaves| == MAX_RETRIES && i <= MAX_RETRIES
    decreases MAX_RETRIES - i
  {
    if i < MAX_RETRIES then
      if slaves[i].sending.Failed? then PlainLoop(slaves, master, i + 1)
      else
        var bad := NotSecondary(slaves[i].nReturned, slaves[i].data);
        if bad.Threw? then Threw(bad.code)
        else if bad.value then PlainLoop(slaves, master, i + 1)
        else Ok(slaves[i])
    else if master.sending.Failed? then Threw(master.sending.code)
    else
      var bad := NotSecondary(master.nReturned, master.data);
      if bad.Threw? then Threw(bad.code) else Ok(master)
  }

  class DBClientReplicaSet {
    var lazyState: LazyState
    var slave: Option<nat>
    var master: Option<nat>

    /** Attempts on secondaries, and messages the master got. */
    ghost var slaveAttempts: nat
    ghost var masterSends: nat

    constructor ()
      ensures lazyState == LazyState(None, -1, false, 0) && slave == master == None && slaveAttempts == masterSends == 0
    {
      lazyState, slave, master, slaveAttempts, masterSends := FRESH, None, None, 0, 0;
    }

    /** Sends a query to the next secondary that takes it, anything else and what no secondary
        takes to the master. A retry goes on counting where the last one stopped. */
    method Say(op: int, slaveOk: bool, isRetry: bool, slaves: seq<Attempt>, masterTry: Attempt)
      returns (r: Result<()>)
      requires |slaves| == MAX_RETRIES
      modifies this
      ensures var from := if isRetry then old(lazyState.retries) else 0;
        var i := FirstSent(slaves, if op == 2004 && slaveOk then from else MAX_RETRIES);
        if i < MAX_RETRIES then
          r == Ok(()) && slaveAttempts == old(slaveAttempts) + (i + 1 - from) && masterSends == old(masterSends) &&
          lazyState == LazyState(Some(slaves[i].sending.conn), op, slaveOk, i) &&
          slave == Some(slaves[i].sending.conn) && master == old(master)
        else
          var tried := if op == 2004 && slaveOk && from < MAX_RETRIES then MAX_RETRIES - from else 0;
          slaveAttempts == old(slaveAttempts) + tried &&
          slave == (if tried > 0 then Left(slaves[MAX_RETRIES - 1].sending) else old(slave)) &&
          master == Left(masterTry.sending) &&
          if masterTry.sending.Failed? then
            r == Threw(masterTry.sending.code) && masterSends == old(masterSends) &&
            lazyState == if isRetry then old(lazyState) else FRESH
          else
            r == Ok(()) && masterSends == old(masterSends) + 1 &&
            lazyState == LazyState(Some(masterTry.sending.conn), op, op == 2004 && slaveOk, MAX_RETRIES)
    {
      if !isRetry {
        lazyState := FRESH;
      }
      var lastOp, ok := op, false;
      if op == DB_QUERY {
        ok := slaveOk;
        if slaveOk {
          var i := lazyState.retries;
          ghost var from := i;
          while i < MAX_RETRIES
            invariant from == i || from <= i <= MAX_RETRIES
            invariant lazyState == (if isRetry then old(lazyState) else FRESH) && masterSends == old(masterSends)
            invariant slaveAttempts == old(slaveAttempts) + (i - from)
            invariant FirstSent(slaves, from) == FirstSent(slaves, i) && master == old(master)
            invariant slave == if i == from then old(slave) else Left(slaves[i - 1].sending)
          {
            slaveAttempts := slaveAttempts + 1;
            match slaves[i].sending {
              case Sent(conn) =>
                slave := Some(conn);
                lazyState := LazyState(slave, lastOp, ok, i);
                return Ok(());
              case Failed(left, _) =>
                slave := left;
            }
            i := i + 1;
          }
        }
      }
      match masterTry.sending {
        case Failed(left, code) =>
          master := left;
          return Threw(code);
        case Sent(conn) =>
          master := Some(conn);
          masterSends := masterSends + 1;
          lazyState := LazyState(master, lastOp, ok, MAX_RETRIES);
          return Ok(());
      }
    }

    /** Asks for a retry when a secondary answered as none, until the retries are used up. */
    method CheckResponse(nReturned: int, data: Doc) returns (retry: Result<bool>)
      modifies this`lazyState, this`slave, this`master
      ensures var s := old(lazyState);
        var asked := s.lastClient.Some? && s.lastOp == 2004 && s.slaveOk;
        var bad := if asked then NotSecondary(nReturned, data) else Ok(false);
        if bad.Threw? then retry == Threw(bad.code) && lazyState == s && slave == old(slave) && master == old(master)
        else
          retry == Ok(bad.value && s.retries < MAX_RETRIES) &&
          lazyState == s.(retries := if retry.value then s.retries + 1 else s.retries) &&
          slave == (if bad.value && s.lastClient == old(slave) then None else old(slave)) &&
          master == if bad.value && s.lastClient != old(slave) && s.lastClient == old(master) then None else old(master)
    {
      if lazyState.lastClient.None? {
        return Ok(false);
      }
      if nReturned != 1 && nReturned != -1 {
        return Ok(false);
      }
      var dataObj := if nReturned == 1 then data else Nil;
      if lazyState.lastOp == DB_QUERY && lazyState.slaveOk {
        var bad := nReturned == -1;
        if !bad && !GetField(dataObj, ERR_FIELD).value.EOO? && !GetField(dataObj, CODE_FIELD).value.EOO? {
          if !GetField(dataObj, CODE_FIELD).value.NumberInt? {
            return Threw(13111);
          }
          bad := GetField(dataObj, CODE_FIELD).value.n == NOT_MASTER_OR_SECONDARY;
        }
        if bad {
          if lazyState.lastClient == slave {
            slave := None;
          } else if lazyState.lastClient == master {
            master := None;
          }
          if lazyState.retries < MAX_RETRIES {
            lazyState := lazyState.(retries := lazyState.retries + 1);
            return Ok(true);
          }
        }
      }
      return Ok(false);
    }

    /** A lazy query: say, then check the answer and say again while a retry is asked for. For
        a query a secondary may serve it is the plain loop; anything else goes to the master,
        whose answer stands. At most three attempts on secondaries and one message to the
        master, the last, are made, and the retries left shrink with each one asked for. */
    method LazyQuery(op: int, slaveOk: bool, slaves: seq<Attempt>, masterTry: Attempt) returns (r: Result<Attempt>)
      requires |slaves| == 3
      modifies this
      ensures slaveAttempts <= old(slaveAttempts) + 3 && masterSends <= old(masterSends) + 1
      ensures op == 2004 && slaveOk ==> r == PlainLoop(slaves, masterTry, 0)
      ensures op == 2004 && slaveOk && masterSends > old(masterSends) ==>
        slaveAttempts == old(slaveAttempts) + 3
      ensures !(op == 2004 && slaveOk) ==>
        slaveAttempts == old(slaveAttempts) &&
        r == if masterTry.sending.Failed? then Threw(masterTry.sending.code) else Ok(masterTry)
    {
      ghost var lazy := op == DB_QUERY && slaveOk;
      ghost var goal := PlainLoop(slaves, masterTry, 0);
      FromFirstSent(slaves, masterTry, 0);
      var _ :- Say(op, slaveOk, false, slaves, masterTry);
      while true
        invariant lazyState.lastClient.Some? && lazyState.lastOp == op && lazyState.slaveOk == lazy
        invariant lazyState.retries <= MAX_RETRIES && (!lazy ==> lazyState.retries == MAX_RETRIES)
        invariant lazyState.retries < MAX_RETRIES ==>
          slaves[lazyState.retries].sending.Sent? && masterSends == old(masterSends) &&
          slaveAttempts == old(slaveAttempts) + lazyState.retries + 1
        invariant lazyState.retries == MAX_RETRIES ==>
          masterTry.sending.Sent? && masterSends == old(masterSends) + 1 &&
          slaveAttempts == old(slaveAttempts) + if lazy then MAX_RETRIES else 0
        invariant lazy ==> goal == PlainLoop(slaves, masterTry, lazyState.retries)
        decreases MAX_RETRIES - lazyState.retries
      {
        var heard := if lazyState.retries < MAX_RETRIES then slaves[lazyState.retries] else masterTry;
        var retry :- CheckResponse(heard.nReturned, heard.data);
        if !retry {
          return Ok(heard);
        }
        FromFirstSent(slaves, masterTry, lazyState.retries);
        var _ :- Say(op, slaveOk, true, slaves, masterTry);
      }
    }
  }

  /** The first attempt, from `i` on, that reaches a secondary. */
  function FirstSent(slaves: seq<Attempt>, i: nat): (k: nat)
    requires |slaves| == MAX_RETRIES
    ensures k < MAX_RETRIES ==> slaves[k].sending.Sent? && i <= k
    ensures forall j :: i <= j < k && j < MAX_RETRIES ==> slaves[j].sending.Failed?
    decreases MAX_RETRIES - i
  {
    if i >= MAX_RETRIES then MAX_RETRIES else if slaves[i].sending.Sent? then i else FirstSent(slaves, i + 1)
  }

  lemma {:induction false} FromFirstSent(slaves: seq<Attempt>, master: Attempt, i: nat)
    requires |slaves| == MAX_RETRIES && i <= MAX_RETRIES
    ensures FirstSent(slaves, i) <= MAX_RETRIES
    ensures PlainLoop(slaves, master, i) == PlainLoop(slaves, master, FirstSent(slaves, i))
    decreases MAX_RETRIES - i
  {
    if i < MAX_RETRIES && slaves[i].sending.Failed? {
      FromFirstSent(slaves, master, i + 1);
    }
  }
}
