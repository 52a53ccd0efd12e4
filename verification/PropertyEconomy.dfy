/** Game properties: a player buys one, draws its profit now and then, and sells it back. */
module PropertyEconomy {
  import opened Bytes

  const PERIOD: int := 1440

  /** What the throws of `Purchase` and `Sell` are about. */
  const NOT_ON_SALE: nat := 1
  const NOT_ENOUGH_MONEY: nat := 2
  const ALREADY_ON_SALE: nat := 3
  const NOT_THE_OWNER: nat := 4

  /** C division: toward zero. */
  function Truncated(a: int, b: int): int
    requires b > 0
  {
    if a >= 0 then a / b else -(-a / b)
  }

  /** What is left over has the sign of what is divided, and is less than the divisor. */
  lemma TruncatedIs(a: int, b: int)
    requires b > 0
    ensures var left := a - Truncated(a, b) * b; -b < left < b && (a >= 0 ==> left >= 0) && (a <= 0 ==> left <= 0)
  {
    if a >= 0 {
      assert a == a / b * b + a % b;
    } else {
      assert -a == -a / b * b + -a % b;
      assert -(-a / b) * b == -(-a / b * b);
    }
  }

  class Profile {
    const id: nat
    var money: int

    constructor (id: nat, money: int)
      ensures this.id == id && this.money == money
    {
      this.id, this.money := id, money;
    }

    method GiveMoney(amount: int)
      modifies this
      ensures money == old(money) + amount
    {
      money := money + amount;
    }
  }

  class Property {
    const value: int
    const profit: int
    var owner: Option<nat>
    var lastdraw: int

    constructor (value: int, profit: int, now: int)
      ensures this.value == value && this.profit == profit && owner == None && lastdraw == now
    {
      this.value, this.profit, owner, lastdraw := value, profit, None, now;
    }

    predicate OnSale()
      reads this
    {
      owner.None?
    }

    /** What a draw pays now: whole periods only. */
    function Earns(now: int): int
      reads this
    {
      Truncated(now - lastdraw, 1440) * profit
    }

    /** Pays the owner for the whole periods since the last draw; when it pays nothing, it does
        not count as a draw, and when it pays, what is left of a period is lost. */
    method Draw(player: Profile, now: int) returns (earns: int)
      modifies this`lastdraw, player
      ensures earns == if owner == Some(player.id) then old(Earns(now)) else 0
      ensures player.money == old(player.money) + earns
      ensures lastdraw == if earns == 0 then old(lastdraw) else now
    {
      if Some(player.id) != owner {
        return 0;
      }
      earns := Truncated(now - lastdraw, PERIOD) * profit;
      if earns == 0 {
        return;
      }
      player.GiveMoney(earns);
      lastdraw := now;
    }

    /** Sells the property to a player. The last draw stays the one before: profit that gathers
        on a property on sale goes to the next owner. */
    method Purchase(buyer: Profile) returns (r: Result<()>)
      modifies this`owner, buyer
      ensures old(!OnSale()) ==> r == Threw(NOT_ON_SALE)
      ensures old(OnSale()) && old(buyer.money) < value ==> r == Threw(NOT_ENOUGH_MONEY)
      ensures r.Ok? <==> old(OnSale()) && old(buyer.money) >= value
      ensures r.Ok? ==> owner == Some(buyer.id) && buyer.money == old(buyer.money) - value && buyer.money >= 0
      ensures r.Threw? ==> owner == old(owner) && buyer.money == old(buyer.money)
    {
      if !OnSale() {
        return Threw(NOT_ON_SALE);
      }
      if buyer.money < value {
        return Threw(NOT_ENOUGH_MONEY);
      }
      owner := Some(buyer.id);
      buyer.GiveMoney(value * -1);
      return Ok(());
    }

    /** Buys the property back from its owner, after a last draw. */
    method Sell(seller: Profile, now: int) returns (r: Result<()>, earns: int)
      modifies this`owner, this`lastdraw, seller
      ensures old(OnSale()) ==> r == Threw(ALREADY_ON_SALE)
      ensures old(!OnSale()) && old(owner) != Some(seller.id) ==> r == Threw(NOT_THE_OWNER)
      ensures r.Ok? <==> old(owner) == Some(seller.id)
      ensures r.Ok? ==>
        earns == old(Earns(now)) && OnSale() && seller.money == old(seller.money) + earns + value &&
        lastdraw == if earns == 0 then old(lastdraw) else now
      ensures r.Threw? ==> earns == 0 && seller.money == old(seller.money)
      ensures r.Threw? ==> owner == old(owner) && lastdraw == old(lastdraw)
    {
      earns := 0;
      if OnSale() {
        return Threw(ALREADY_ON_SALE), 0;
      }
      if Some(seller.id) != owner {
        return Threw(NOT_THE_OWNER), 0;
      }
      earns := Draw(seller, now);
      owner := None;
      seller.GiveMoney(value);
      return Ok(()), earns;
    }
  }

  // ----- whole runs -----

  datatype Action = Drawing | Purchasing | Selling

  /** Who does what, and when. */
  datatype Event = Event(who: nat, what: Action, now: int)

  /** The terms of a property, and its state with everyone's money. */
  datatype Terms = Terms(value: int, profit: int)

  datatype State = State(owner: Option<nat>, lastdraw: int, money: seq<int>)
  {
    function Paid(who: nat, amount: int): State
      requires who < |money|
    {
      this.(money := money[who := money[who] + amount])
    }
  }

  /** One event, and what it pays out. */
  function Step(t: Terms, s: State, e: Event): (State, int)
    requires e.who < |s.money|
  {
    var earns := Truncated(e.now - s.lastdraw, PERIOD) * t.profit;
    var last := if earns == 0 then s.lastdraw else e.now;
    match e.what
    case Drawing => if s.owner == Some(e.who) then (s.Paid(e.who, earns).(lastdraw := last), earns) else (s, 0)
    case Purchasing =>
      if s.owner.None? && s.money[e.who] >= t.value then (s.Paid(e.who, -t.value).(owner := Some(e.who)), 0) else (s, 0)
    case Selling =>
      if s.owner != Some(e.who) then (s, 0)
      else (s.Paid(e.who, earns + t.value).(lastdraw := last, owner := None), earns)
  }

  predicate Known(events: seq<Event>, n: nat) {
    forall i :: 0 <= i < |events| ==> events[i].who < n
  }

  /** The state after the first `n` events, and all they paid out. */
  function After(t: Terms, s: State, events: seq<Event>, n: nat): (r: (State, int))
    requires n <= |events| && Known(events, |s.money|)
    ensures |r.0.money| == |s.money|
  {
    if n == 0 then (s, 0)
    else
      var (before, payout) := After(t, s, events, n - 1);
      var (after, paid) := Step(t, before, events[n - 1]);
      (after, payout + paid)
  }

  function TermsOf(property: Property): Terms {
    Terms(property.value, property.profit)
  }

  /** The objects are in this state; players go by their index. */
  ghost predicate Holds(property: Property, players: seq<Profile>, s: State)
    reads property, players
  {
    property.owner == s.owner && property.lastdraw == s.lastdraw && |players| == |s.money| &&
    forall i :: 0 <= i < |players| ==> players[i].id == i && players[i].money == s.money[i]
  }

  /** One event on the objects is a step of the state. */
  method Happen(property: Property, players: seq<Profile>, event: Event, ghost s: State) returns (paid: int)
    requires Holds(property, players, s) && event.who < |players|
    modifies property, players
    ensures var (after, earns) := Step(TermsOf(property), s, event);
      Holds(property, players, after) && paid == earns
  {
    var player := players[event.who];
    match event.what {
      case Drawing =>
        paid := property.Draw(player, event.now);
      case Purchasing =>
        var _ := property.Purchase(player);
        paid := 0;
      case Selling =>
        var r;
        r, paid := property.Sell(player, event.now);
    }
  }

  /** A run of events. */
  method Run(property: Property, players: seq<Profile>, events: seq<Event>, ghost s: State) returns (payout: int)
    requires Holds(property, players, s) && Known(events, |players|)
    modifies property, players
    ensures var (after, earns) := After(TermsOf(property), s, events, |events|);
      Holds(property, players, after) && payout == earns
  {
    payout := 0;
    for n := 0 to |events|
      invariant var (now, earns) := After(TermsOf(property), s, events, n);
        Holds(property, players, now) && payout == earns
    {
      ghost var now := After(TermsOf(property), s, events, n).0;
      var paid := Happen(property, players, events[n], now);
      payout := payout + paid;
    }
  }

  // ----- what holds over every run -----

  function Sum(s: seq<int>): int {
    if s == [] then 0 else Sum(s[..|s| - 1]) + s[|s| - 1]
  }

  lemma {:induction false} SumUpdate(s: seq<int>, i: nat, v: int)
    requires i < |s|
    ensures Sum(s[i := v]) == Sum(s) - s[i] + v
  {
    var t := s[i := v];
    if i == |s| - 1 {
      assert t[..|s| - 1] == s[..|s| - 1];
    } else {
      SumUpdate(s[..|s| - 1], i, v);
      assert t[..|s| - 1] == s[..|s| - 1][i := v];
    }
  }

  /** The money the players have, and what is tied up in the property. */
  function Worth(t: Terms, s: State): int {
    Sum(s.money) + if s.owner.Some? then t.value else 0
  }

  lemma StepWorth(t: Terms, s: State, e: Event)
    requires e.who < |s.money|
    ensures var (after, paid) := Step(t, s, e); Worth(t, after) == Worth(t, s) + paid
  {
    var (after, _) := Step(t, s, e);
    SumUpdate(s.money, e.who, after.money[e.who]);
    assert after.money == s.money[e.who := after.money[e.who]];
  }

  /** No money appears or goes but by the payout, whatever the clock does. */
  lemma {:induction false} LedgerConstant(t: Terms, s: State, events: seq<Event>, n: nat)
    requires n <= |events| && Known(events, |s.money|)
    ensures var (after, payout) := After(t, s, events, n); Worth(t, after) - payout == Worth(t, s)
  {
    if n > 0 {
      LedgerConstant(t, s, events, n - 1);
      StepWorth(t, After(t, s, events, n - 1).0, events[n - 1]);
    }
  }

  /** The clock does not go back, from `t0` on. */
  predicate InOrder(events: seq<Event>, t0: int) {
    (forall i :: 0 <= i < |events| ==> t0 <= events[i].now) &&
    forall i, j :: 0 <= i < j < |events| ==> events[i].now <= events[j].now
  }

  /** A step pays whole periods since the last draw, and loses less than a period if it pays. */
  lemma StepPeriods(t: Terms, s: State, e: Event) returns (periods: nat)
    requires e.who < |s.money| && s.lastdraw <= e.now
    ensures var (after, paid) := Step(t, s, e);
      paid == periods * t.profit && s.lastdraw <= after.lastdraw <= e.now &&
      PERIOD * periods <= after.lastdraw - s.lastdraw &&
      after.lastdraw - s.lastdraw <= PERIOD * periods + if paid != 0 then PERIOD - 1 else 0
  {
    periods := if Step(t, s, e).1 == 0 then 0 else (e.now - s.lastdraw) / PERIOD;
  }

  /** How many of the first `n` events paid something. */
  function Draws(t: Terms, s: State, events: seq<Event>, n: nat): nat
    requires n <= |events| && Known(events, |s.money|)
  {
    if n == 0 then 0
    else Draws(t, s, events, n - 1) + if Step(t, After(t, s, events, n - 1).0, events[n - 1]).1 != 0 then 1 else 0
  }

  lemma {:induction false} PeriodsPaid(t: Terms, s: State, events: seq<Event>, n: nat) returns (periods: nat)
    requires n <= |events| && Known(events, |s.money|) && InOrder(events, s.lastdraw)
    ensures var (after, payout) := After(t, s, events, n);
      payout == periods * t.profit && s.lastdraw <= after.lastdraw &&
      (if n == 0 then after.lastdraw == s.lastdraw else after.lastdraw <= events[n - 1].now) &&
      PERIOD * periods <= after.lastdraw - s.lastdraw <= PERIOD * periods + (PERIOD - 1) * Draws(t, s, events, n)
  {
    periods := 0;
    if n > 0 {
      var earlier := PeriodsPaid(t, s, events, n - 1);
      var before := After(t, s, events, n - 1).0;
      var more := StepPeriods(t, before, events[n - 1]);
      Distribute(earlier, more, t.profit);
      assert PERIOD * (earlier + more) == PERIOD * earlier + PERIOD * more;
      periods := earlier + more;
    }
  }

  lemma Distribute(a: nat, b: nat, c: int)
    ensures (a + b) * c == a * c + b * c
  {
  }

  /** Whoever owns the property, what it pays out up to the time `end` is at most the profit of
      the whole periods gone by. */
  lemma PayoutAtMost(t: Terms, s: State, events: seq<Event>, end: int)
    requires Known(events, |s.money|) && InOrder(events, s.lastdraw) && t.profit >= 0
    requires s.lastdraw <= end && forall i :: 0 <= i < |events| ==> events[i].now <= end
    ensures After(t, s, events, |events|).1 <= (end - s.lastdraw) / 1440 * t.profit
  {
    var periods := PeriodsPaid(t, s, events, |events|);
    Monotone(periods, (end - s.lastdraw) / PERIOD, t.profit);
  }

  /** And it pays whole periods, which cover the time up to the last draw that paid but for less
      than one period for each. */
  lemma PayoutAtLeast(t: Terms, s: State, events: seq<Event>) returns (periods: nat)
    requires Known(events, |s.money|) && InOrder(events, s.lastdraw)
    ensures After(t, s, events, |events|).1 == periods * t.profit
    ensures 1440 * periods + 1439 * Draws(t, s, events, |events|) >=
      After(t, s, events, |events|).0.lastdraw - s.lastdraw
  {
    periods := PeriodsPaid(t, s, events, |events|);
  }

  lemma Monotone(a: int, b: int, c: nat)
    requires a <= b
    ensures a * c <= b * c
  {
  }

  // ----- profit on sale -----

  /** What a player who buys at `bought` draws at `drawn`. */
  function FirstDraw(t: Terms, s: State, who: nat, bought: int, drawn: int): int
    requires who < |s.money|
  {
    var (own, _) := Step(t, s, Event(who, Purchasing, bought));
    Step(t, own, Event(who, Drawing, drawn)).1
  }

  /** The buyer's first draw counts from the last draw of an owner before, not from the purchase:
      it pays just the profit since the purchase if and only if there is none or no whole period
      more. */
  lemma FirstDrawIsOwnIff(t: Terms, s: State, who: nat, bought: int, drawn: int)
    requires who < |s.money| && s.owner.None? && s.money[who] >= t.value && s.lastdraw <= bought <= drawn
    ensures FirstDraw(t, s, who, bought, drawn) == (drawn - s.lastdraw) / 1440 * t.profit
    ensures FirstDraw(t, s, who, bought, drawn) == (drawn - bought) / 1440 * t.profit <==>
      t.profit == 0 || (drawn - s.lastdraw) / 1440 == (drawn - bought) / 1440
  {
    var all, own := (drawn - s.lastdraw) / PERIOD, (drawn - bought) / PERIOD;
    SameProfitIff(all, own, t.profit);
  }

  lemma SameProfitIff(a: int, b: int, profit: int)
    ensures a * profit == b * profit <==> profit == 0 || a == b
  {
    if a * profit == b * profit {
      assert (a - b) * profit == 0;
    }
  }

  /** A property on sale for one period pays its new owner at once. */
  lemma PaidForTimeOnSale()
    ensures FirstDraw(Terms(100, 7), State(None, 0, [100]), 0, 1440, 1440) == 7
  {
    FirstDrawIsOwnIff(Terms(100, 7), State(None, 0, [100]), 0, 1440, 1440);
  }
}
