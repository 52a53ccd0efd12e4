/** The four hooks on the abstract machine's exports. Each hook body takes its own hook off while
    it runs and calls the original; a body called from inside may call any export again. */
module AmxHooks {
  import opened Bytes
  import opened Hooks

  datatype Func = Register | FindPublic | Exec | Callback

  datatype Site = Site(src: nat, dst: nat)

  datatype Sites = Sites(register: Site, findPublic: Site, exec: Site, callback: Site)
  {
    function At(f: Func): Site {
      match f
      case Register => register
      case FindPublic => findPublic
      case Exec => exec
      case Callback => callback
    }
  }

  /** Which hooks are installed. */
  datatype Flags = Flags(register: bool, findPublic: bool, exec: bool, callback: bool)
  {
    predicate Has(f: Func) {
      match f
      case Register => register
      case FindPublic => findPublic
      case Exec => exec
      case Callback => callback
    }

    function With(f: Func, on: bool): Flags {
      match f
      case Register => this.(register := on)
      case FindPublic => this.(findPublic := on)
      case Exec => this.(exec := on)
      case Callback => this.(callback := on)
    }
  }

  /** Code regions within memory that do not overlap, in code that is not hooked already. */
  predicate Apart(orig: seq<byte>, sites: Sites) {
    (forall f: Func :: sites.At(f).src + JMP_INSTR_SIZE <= |orig| &&
      orig[sites.At(f).src..sites.At(f).src + JMP_INSTR_SIZE] != JumpTo(sites.At(f).src, sites.At(f).dst)) &&
    forall f: Func, g: Func :: f != g ==>
      sites.At(f).src + JMP_INSTR_SIZE <= sites.At(g).src || sites.At(g).src + JMP_INSTR_SIZE <= sites.At(f).src
  }

  predicate Covers(site: Site, a: nat) {
    site.src <= a < site.src + JMP_INSTR_SIZE
  }

  function JumpByte(site: Site, a: nat): byte
    requires Covers(site, a)
  {
    JumpTo(site.src, site.dst)[a - site.src]
  }

  function ByteAt(orig: seq<byte>, sites: Sites, flags: Flags, a: nat): byte
    requires a < |orig|
  {
    if flags.register && Covers(sites.register, a) then JumpByte(sites.register, a)
    else if flags.findPublic && Covers(sites.findPublic, a) then JumpByte(sites.findPublic, a)
    else if flags.exec && Covers(sites.exec, a) then JumpByte(sites.exec, a)
    else if flags.callback && Covers(sites.callback, a) then JumpByte(sites.callback, a)
    else orig[a]
  }

  /** Memory as the flags have it: the original code, with a jump over each hooked entry. */
  function Image(orig: seq<byte>, sites: Sites, flags: Flags): (s: seq<byte>)
    ensures |s| == |orig|
  {
    seq(|orig|, a requires 0 <= a < |orig| => ByteAt(orig, sites, flags, a))
  }

  lemma ImageInstall(orig: seq<byte>, sites: Sites, flags: Flags, f: Func)
    requires Apart(orig, sites) && !flags.Has(f)
    ensures var at, image := sites.At(f), Image(orig, sites, flags);
      image[at.src..at.src + JMP_INSTR_SIZE] == orig[at.src..at.src + JMP_INSTR_SIZE] &&
      Write(image, at.src, JumpTo(at.src, at.dst)) == Image(orig, sites, flags.With(f, true))
  {
    var at, image := sites.At(f), Image(orig, sites, flags);
    assert flags.With(f, false) == flags;
    forall a | 0 <= a < |orig|
      ensures Write(image, at.src, JumpTo(at.src, at.dst))[a] == Image(orig, sites, flags.With(f, true))[a]
      ensures Covers(at, a) ==> image[a] == orig[a]
    {
      ImageByte(orig, sites, flags, f, a);
    }
    forall a | at.src <= a < at.src + JMP_INSTR_SIZE
      ensures image[a] == orig[a]
    {
      assert Covers(at, a);
    }
  }

  lemma ImageByte(orig: seq<byte>, sites: Sites, flags: Flags, f: Func, a: nat)
    requires Apart(orig, sites) && a < |orig|
    ensures var at := sites.At(f);
      ByteAt(orig, sites, flags.With(f, true), a) ==
        (if Covers(at, a) then JumpTo(at.src, at.dst)[a - at.src] else ByteAt(orig, sites, flags, a)) &&
      ByteAt(orig, sites, flags.With(f, false), a) == if Covers(at, a) then orig[a] else ByteAt(orig, sites, flags, a)
  {
    var r, p, e, c := sites.At(Register), sites.At(FindPublic), sites.At(Exec), sites.At(Callback);
    match f
    case Register =>
    case FindPublic =>
    case Exec =>
    case Callback =>
  }

  lemma ImageRemove(orig: seq<byte>, sites: Sites, flags: Flags, f: Func)
    requires Apart(orig, sites)
    ensures var at := sites.At(f);
      Write(Image(orig, sites, flags), at.src, orig[at.src..at.src + JMP_INSTR_SIZE]) ==
        Image(orig, sites, flags.With(f, false))
  {
    var at := sites.At(f);
    forall a | 0 <= a < |orig|
      ensures Write(Image(orig, sites, flags), at.src, orig[at.src..at.src + JMP_INSTR_SIZE])[a] ==
        ByteAt(orig, sites, flags.With(f, false), a)
    {
      ImageByte(orig, sites, flags, f, a);
    }
  }

  /** The bytes at an entry are the jump when it is hooked and the original ones when not. */
  lemma EntryBytes(orig: seq<byte>, sites: Sites, flags: Flags, f: Func)
    requires Apart(orig, sites)
    ensures var at := sites.At(f);
      var bytes := Image(orig, sites, flags)[at.src..at.src + JMP_INSTR_SIZE];
      if flags.Has(f) then bytes == JumpTo(at.src, at.dst)
      else bytes == orig[at.src..at.src + JMP_INSTR_SIZE] && bytes != JumpTo(at.src, at.dst)
  {
    var at, image := sites.At(f), Image(orig, sites, flags);
    assert flags.With(f, flags.Has(f)) == flags;
    forall a | at.src <= a < at.src + JMP_INSTR_SIZE
      ensures image[a] == if flags.Has(f) then JumpTo(at.src, at.dst)[a - at.src] else orig[a]
    {
      ImageByte(orig, sites, flags, f, a);
      assert Covers(at, a);
    }
  }

  // ----- what is intercepted -----

  const ALL: Flags := Flags(true, true, true, true)

  /** The flags inside the hook bodies in `stack`, the innermost last. */
  function FlagsIn(stack: seq<Func>): Flags {
    if stack == [] then ALL else Within(stack[|stack| - 1], FlagsIn(stack[..|stack| - 1]))
  }

  /** The flags inside a hook body. */
  function Within(f: Func, flags: Flags): Flags {
    match f
    case Register => flags.(register := false)
    case FindPublic => flags.(findPublic := false)
    case Exec => flags.(exec := false, callback := true)
    case Callback => flags.(callback := false, exec := true)
  }

  /** The innermost body that is one of execution's or callbacks'. */
  function Innermost(stack: seq<Func>): Option<Func> {
    if stack == [] then Option.None
    else if stack[|stack| - 1] in {Exec, Callback} then Option.Some(stack[|stack| - 1])
    else Innermost(stack[..|stack| - 1])
  }

  /** Whether a call from inside these bodies is intercepted: execution unless the innermost body of
      the two is its own, callbacks likewise, the others unless their body runs anywhere. */
  predicate Intercepted(f: Func, stack: seq<Func>) {
    if f in {Exec, Callback} then Innermost(stack) != Option.Some(f) else f !in stack
  }

  /** The flags say just that. */
  lemma {:induction false} InterceptedIff(f: Func, stack: seq<Func>)
    ensures FlagsIn(stack).Has(f) <==> Intercepted(f, stack)
  {
    if stack != [] {
      InterceptedIff(f, stack[..|stack| - 1]);
      assert stack == stack[..|stack| - 1] + [stack[|stack| - 1]];
    }
  }

  /** What decides whether a call is intercepted: the flags, or the hook bodies it is made in. */
  datatype Context = ByFlags(flags: Flags) | ByBodies(stack: seq<Func>)
  {
    predicate Intercepts(f: Func) {
      match this
      case ByFlags(flags) => flags.Has(f)
      case ByBodies(stack) => Intercepted(f, stack)
    }

    function Inside(f: Func): Context {
      match this
      case ByFlags(flags) => ByFlags(Within(f, flags))
      case ByBodies(stack) => ByBodies(stack + [f])
    }
  }

  // ----- what the machine and its plugins do -----

  const AMX_EXEC_MAIN: int := -1
  const AMX_EXEC_CONT: int := -2
  const AMX_EXEC_GDK: int := -10
  const AMX_ERR_NONE: int := 0
  const ON_GAME_MODE_INIT: string := "OnGameModeInit"

  /** A call of one of the exports, and the calls made in the course of it: by the plugins'
      handlers, if a hook body runs them, and by the original, if it runs. */
  datatype Call =
    | CallRegister(inside: Calls)
    | CallFindPublic(amx: nat, name: string, error: int, index: int, inside: Calls)
    | CallExec(amx: nat, index: int, handlers: Calls, allowed: bool, inside: Calls)
    | CallCallback(inside: Calls)
  {
    function Callee(): Func {
      match this
      case CallRegister(_) => Register
      case CallFindPublic(_, _, _, _, _) => FindPublic
      case CallExec(_, _, _, _, _) => Exec
      case CallCallback(_) => Callback
    }
  }

  datatype Calls = None | First(head: Call, tail: Calls)

  /** The static state of the hook bodies. */
  datatype Game = Game(gamemode: Option<nat>, currentPublic: string)

  /** What can be seen: a hook body starting, plugins told of a callback of a script or of its start,
      an original running, and what a search for a public function, hooked or not, answers, beside
      what the original answers. */
  datatype Event =
    | Hooked(f: Func)
    | Handled(amx: nat, start: bool, name: string)
    | Original(f: Func)
    | Answered(amx: nat, name: string, hooked: bool, ownError: int, ownIndex: int, error: int, index: int)

  /** What the original answers when it is not hooked. */
  function Answer(call: Call): seq<Event> {
    if call.CallFindPublic? then
      [Answered(call.amx, call.name, false, call.error, call.index, call.error, call.index)]
    else []
  }

  /** A run, by the flags alone or by the bodies alone: its events, and the state it ends in. */
  function RunAll(calls: Calls, at: Context, game: Game): (seq<Event>, Game)
    decreases calls, 4
  {
    match calls
    case None => ([], game)
    case First(head, tail) =>
      var (first, g1) := RunOne(head, at, game);
      var (rest, g2) := RunAll(tail, at, g1);
      (first + rest, g2)
  }

  function RunOriginal(call: Call, at: Context, game: Game): (seq<Event>, Game)
    decreases call, 0
  {
    var (events, g) := RunAll(call.inside, at, game);
    ([Original(call.Callee())] + events, g)
  }

  /** Whether entering the body puts another hook in. */
  predicate Puts(f: Func, flags: Flags) {
    (f == Exec && !flags.callback) || (f == Callback && !flags.exec)
  }

  /** The name of the callback a hooked `amx_Exec` tells the plugins of, if any. */
  function HandledName(amx: nat, index: int, game: Game): Option<string> {
    if index == AMX_EXEC_MAIN then Option.Some(ON_GAME_MODE_INIT)
    else if game.gamemode == Option.Some(amx) && index != AMX_EXEC_CONT then Option.Some(game.currentPublic)
    else Option.None
  }

  /** The body of the `amx_Exec` hook: plugins first, then the original unless they forbid it or
      the function is one the game mode does not have. */
  function RunExec(call: Call, at: Context, game: Game): (seq<Event>, Game)
    requires call.CallExec?
    decreases call, 1
  {
    var name := HandledName(call.amx, call.index, game);
    var start := call.index == AMX_EXEC_MAIN;
    var g0 := if start then game.(gamemode := Option.Some(call.amx)) else game;
    if name.None? then
      if call.index == AMX_EXEC_GDK then ([], g0) else RunOriginal(call, at, g0)
    else
      var (told, g1) := RunAll(call.handlers, at, g0);
      if (start || call.allowed) && call.index != AMX_EXEC_GDK then
        var (rest, g2) := RunOriginal(call, at, g1);
        ([Handled(call.amx, start, name.value)] + told + rest, g2)
      else ([Handled(call.amx, start, name.value)] + told, g1)
  }

  /** The body of the `amx_FindPublic` hook: for the game mode every function is found, and
      remembered. */
  function RunFindPublic(call: Call, at: Context, game: Game): (seq<Event>, Game)
    requires call.CallFindPublic?
    decreases call, 1
  {
    var (rest, g1) := RunOriginal(call, at, game);
    if g1.gamemode != Option.Some(call.amx) then
      (rest + [Answered(call.amx, call.name, true, call.error, call.index, call.error, call.index)], g1)
    else
      var index := if call.error == AMX_ERR_NONE then call.index else AMX_EXEC_GDK;
      (rest + [Answered(call.amx, call.name, true, call.error, call.index, AMX_ERR_NONE, index)],
       g1.(currentPublic := call.name))
  }

  /** The body of whichever hook it is. */
  function RunBody(call: Call, at: Context, game: Game): (seq<Event>, Game)
    decreases call, 2
  {
    if call.CallExec? then RunExec(call, at, game)
    else if call.CallFindPublic? then RunFindPublic(call, at, game)
    else RunOriginal(call, at, game)
  }

  function RunOne(call: Call, at: Context, game: Game): (seq<Event>, Game)
    decreases call, 3
  {
    var f := call.Callee();
    if !at.Intercepts(f) then
      var (rest, g1) := RunOriginal(call, at, game);
      (rest + Answer(call), g1)
    else
      var (rest, g1) := RunBody(call, at.Inside(f), game);
      ([Hooked(f)] + rest, g1)
  }

  // ----- the bodies decide -----

  lemma OneMoreBody(stack: seq<Func>, f: Func)
    ensures FlagsIn(stack + [f]) == Within(f, FlagsIn(stack))
  {
    assert (stack + [f])[..|stack|] == stack;
  }

  /** In any run, each call, however deep, is intercepted or not by the hook bodies around it. */
  lemma {:induction false} BodiesDecide(calls: Calls, stack: seq<Func>, game: Game)
    ensures RunAll(calls, ByFlags(FlagsIn(stack)), game) == RunAll(calls, ByBodies(stack), game)
    decreases calls, 4
  {
    if calls.First? {
      BodiesDecideOne(calls.head, stack, game);
      BodiesDecide(calls.tail, stack, RunOne(calls.head, ByBodies(stack), game).1);
    }
  }

  lemma {:induction false} BodiesDecideOriginal(call: Call, stack: seq<Func>, game: Game)
    ensures RunOriginal(call, ByFlags(FlagsIn(stack)), game) == RunOriginal(call, ByBodies(stack), game)
    decreases call, 0
  {
    BodiesDecide(call.inside, stack, game);
  }

  lemma {:induction false} BodiesDecideExec(call: Call, stack: seq<Func>, game: Game)
    requires call.CallExec?
    ensures RunExec(call, ByFlags(FlagsIn(stack)), game) == RunExec(call, ByBodies(stack), game)
    decreases call, 1
  {
    var g0 := if call.index == AMX_EXEC_MAIN then game.(gamemode := Option.Some(call.amx)) else game;
    BodiesDecideOriginal(call, stack, g0);
    BodiesDecide(call.handlers, stack, g0);
    BodiesDecideOriginal(call, stack, RunAll(call.handlers, ByBodies(stack), g0).1);
  }

  lemma {:induction false} BodiesDecideBody(call: Call, stack: seq<Func>, game: Game)
    ensures RunBody(call, ByFlags(FlagsIn(stack)), game) == RunBody(call, ByBodies(stack), game)
    decreases call, 2
  {
    BodiesDecideOriginal(call, stack, game);
    if call.CallExec? {
      BodiesDecideExec(call, stack, game);
    }
  }

  lemma {:induction false} BodiesDecideOne(call: Call, stack: seq<Func>, game: Game)
    ensures RunOne(call, ByFlags(FlagsIn(stack)), game) == RunOne(call, ByBodies(stack), game)
    decreases call, 3
  {
    var f := call.Callee();
    InterceptedIff(f, stack);
    OneMoreBody(stack, f);
    BodiesDecideOriginal(call, stack, game);
    BodiesDecideBody(call, stack + [f], game);
  }

  // ----- what a trace says of the static state -----

  /** The state after an event: a start sets the game mode, and a hooked search on the game mode the
      current public function. */
  function Seen(game: Game, e: Event): Game {
    match e
    case Handled(amx, start, _) => if start then game.(gamemode := Option.Some(amx)) else game
    case Answered(amx, name, hooked, _, _, _, _) =>
      if hooked && game.gamemode == Option.Some(amx) then game.(currentPublic := name) else game
    case _ => game
  }

  function SeenAll(trace: seq<Event>, game: Game): Game {
    if trace == [] then game else Seen(SeenAll(trace[..|trace| - 1], game), trace[|trace| - 1])
  }

  lemma {:induction false} SeenJoin(s: seq<Event>, t: seq<Event>, game: Game)
    ensures SeenAll(s + t, game) == SeenAll(t, SeenAll(s, game))
  {
    if t == [] {
      assert s + t == s;
    } else {
      assert (s + t)[..|s + t| - 1] == s + t[..|t| - 1];
      SeenJoin(s, t[..|t| - 1], game);
    }
  }

  /** Plugins are told of the start of a script, or of the current public function of the game mode;
      a hooked search tells the game mode that the function is there. */
  predicate Fits(e: Event, game: Game) {
    match e
    case Handled(amx, start, name) =>
      if start then name == ON_GAME_MODE_INIT else game.gamemode == Option.Some(amx) && name == game.currentPublic
    case Answered(amx, _, hooked, ownError, ownIndex, error, index) =>
      if hooked && game.gamemode == Option.Some(amx) then error == 0 && index == if ownError == 0 then ownIndex else -10
      else error == ownError && index == ownIndex
    case _ => true
  }

  /** A run whose every event fits the state seen so far, and which ends in the state seen. */
  ghost predicate Tells(run: (seq<Event>, Game), game: Game) {
    run.1 == SeenAll(run.0, game) &&
    forall i :: 0 <= i < |run.0| ==> Fits(run.0[i], SeenAll(run.0[..i], game))
  }

  lemma TellsJoin(s: seq<Event>, t: seq<Event>, game: Game, mid: Game, end: Game)
    requires Tells((s, mid), game) && Tells((t, end), mid)
    ensures Tells((s + t, end), game)
  {
    SeenJoin(s, t, game);
    forall i | 0 <= i < |s + t|
      ensures Fits((s + t)[i], SeenAll((s + t)[..i], game))
    {
      if i < |s| {
        assert (s + t)[..i] == s[..i];
      } else {
        assert (s + t)[..i] == s + t[..i - |s|];
        SeenJoin(s, t[..i - |s|], game);
      }
    }
  }

  lemma TellsOne(e: Event, game: Game)
    requires Fits(e, game)
    ensures Tells(([e], Seen(game, e)), game)
  {
    assert [e][..0] == [];
    assert SeenAll([], game) == game;
  }

  /** In any run, to any depth, the trace accounts for the static state, and every event fits it. */
  lemma {:induction false} RunTells(calls: Calls, at: Context, game: Game)
    ensures Tells(RunAll(calls, at, game), game)
    decreases calls, 4
  {
    if calls.First? {
      var (first, g1) := RunOne(calls.head, at, game);
      RunTellsOne(calls.head, at, game);
      RunTells(calls.tail, at, g1);
      var (rest, g2) := RunAll(calls.tail, at, g1);
      TellsJoin(first, rest, game, g1, g2);
    }
  }

  lemma {:induction false} RunTellsOriginal(call: Call, at: Context, game: Game)
    ensures Tells(RunOriginal(call, at, game), game)
    decreases call, 0
  {
    RunTells(call.inside, at, game);
    var (events, end) := RunAll(call.inside, at, game);
    TellsOne(Original(call.Callee()), game);
    TellsJoin([Original(call.Callee())], events, game, game, end);
  }

  lemma {:induction false} RunTellsExec(call: Call, at: Context, game: Game)
    requires call.CallExec?
    ensures Tells(RunExec(call, at, game), game)
    decreases call, 1
  {
    var name := HandledName(call.amx, call.index, game);
    if name.None? {
      RunTellsOriginal(call, at, game);
    } else {
      var e := Handled(call.amx, call.index == AMX_EXEC_MAIN, name.value);
      var g0 := Seen(game, e);
      TellsOne(e, game);
      RunTells(call.handlers, at, g0);
      var (told, g1) := RunAll(call.handlers, at, g0);
      TellsJoin([e], told, game, g0, g1);
      RunTellsOriginal(call, at, g1);
      var (rest, g2) := RunOriginal(call, at, g1);
      TellsJoin([e] + told, rest, game, g1, g2);
    }
  }

  lemma {:induction false} RunTellsFindPublic(call: Call, at: Context, game: Game)
    requires call.CallFindPublic?
    ensures Tells(RunFindPublic(call, at, game), game)
    decreases call, 1
  {
    RunTellsOriginal(call, at, game);
    var (rest, g1) := RunOriginal(call, at, game);
    var (all, g2) := RunFindPublic(call, at, game);
    var e := all[|all| - 1];
    TellsOne(e, g1);
    TellsJoin(rest, [e], game, g1, g2);
  }

  lemma {:induction false} RunTellsOne(call: Call, at: Context, game: Game)
    ensures Tells(RunOne(call, at, game), game)
    decreases call, 3
  {
    var f := call.Callee();
    if at.Intercepts(f) {
      var inner := at.Inside(f);
      var run := RunBody(call, inner, game);
      if call.CallExec? {
        RunTellsExec(call, inner, game);
      } else if call.CallFindPublic? {
        RunTellsFindPublic(call, inner, game);
      } else {
        RunTellsOriginal(call, inner, game);
      }
      TellsOne(Hooked(f), game);
      TellsJoin([Hooked(f)], run.0, game, game, run.1);
    } else {
      RunTellsOriginal(call, at, game);
      var (rest, g1) := RunOriginal(call, at, game);
      if call.CallFindPublic? {
        TellsOne(Answer(call)[0], g1);
        TellsJoin(rest, Answer(call), game, g1, g1);
      } else {
        assert rest + [] == rest;
      }
    }
  }

  /** Event `j` answers a hooked search on what was then the game mode. */
  predicate SearchAt(trace: seq<Event>, game: Game, j: nat) {
    j < |trace| && trace[j].Answered? && trace[j].hooked &&
    SeenAll(trace[..j], game).gamemode == Option.Some(trace[j].amx)
  }

  lemma {:induction false} LastSearch(trace: seq<Event>, game: Game, i: nat, j: nat)
    requires j < i <= |trace| && SearchAt(trace, game, j) && forall k :: j < k < i ==> !SearchAt(trace, game, k)
    ensures SeenAll(trace[..i], game).currentPublic == trace[j].name
    decreases i
  {
    assert trace[..i][..i - 1] == trace[..i - 1];
    if i - 1 > j {
      LastSearch(trace, game, i - 1, j);
      assert !SearchAt(trace, game, i - 1);
    }
  }

  lemma {:induction false} NoSearch(trace: seq<Event>, game: Game, i: nat)
    requires i <= |trace| && forall k :: 0 <= k < i ==> !SearchAt(trace, game, k)
    ensures SeenAll(trace[..i], game).currentPublic == game.currentPublic
  {
    if i > 0 {
      assert trace[..i][..i - 1] == trace[..i - 1];
      NoSearch(trace, game, i - 1);
      assert !SearchAt(trace, game, i - 1);
    }
  }

  /** In any run plugins are told of callbacks by the name the last hooked search on the game mode
      asked for, whatever came between, however the calls nest. */
  lemma HandledNamesLastSearch(calls: Calls, at: Context, game: Game, i: nat, j: nat)
    requires var trace := RunAll(calls, at, game).0;
      j < i < |trace| && trace[i].Handled? && !trace[i].start &&
      SearchAt(trace, game, j) && forall k :: j < k < i ==> !SearchAt(trace, game, k)
    ensures var trace := RunAll(calls, at, game).0; trace[i].name == trace[j].name
  {
    RunTells(calls, at, game);
    LastSearch(RunAll(calls, at, game).0, game, i, j);
  }

  /** Before any such search, it is the name remembered from before the run. */
  lemma HandledNamesEarlier(calls: Calls, at: Context, game: Game, i: nat)
    requires var trace := RunAll(calls, at, game).0;
      i < |trace| && trace[i].Handled? && !trace[i].start && forall k :: 0 <= k < i ==> !SearchAt(trace, game, k)
    ensures RunAll(calls, at, game).0[i].name == game.currentPublic
  {
    RunTells(calls, at, game);
    NoSearch(RunAll(calls, at, game).0, game, i);
  }

  /** And every hooked search on the game mode is answered that the function is there: at its own
      index if it is, at -10 if not. Every other search is answered as the original answers it. */
  lemma SearchesSucceed(calls: Calls, at: Context, game: Game, j: nat)
    requires j < |RunAll(calls, at, game).0| && RunAll(calls, at, game).0[j].Answered?
    ensures var e := RunAll(calls, at, game).0[j];
      if SearchAt(RunAll(calls, at, game).0, game, j) then
        e.error == 0 && e.index == if e.ownError == 0 then e.ownIndex else -10
      else e.error == e.ownError && e.index == e.ownIndex
  {
    RunTells(calls, at, game);
  }

  /** The event in which a search ends is its own answer: of its script, its name, and what the
      original answers, hooked if its call is intercepted. */
  lemma SearchEnds(call: Call, at: Context, game: Game)
    requires call.CallFindPublic?
    ensures var trace := RunOne(call, at, game).0;
      trace != [] && var e := trace[|trace| - 1];
      e.Answered? && e.amx == call.amx && e.name == call.name && (e.hooked <==> at.Intercepts(FindPublic)) &&
      e.ownError == call.error && e.ownIndex == call.index
  {
    if at.Intercepts(FindPublic) {
      var (events, _) := RunFindPublic(call, at.Inside(FindPublic), game);
      var (inside, _) := RunOriginal(call, at.Inside(FindPublic), game);
      assert events != [] && events == inside + [events[|events| - 1]];
      assert ([Hooked(FindPublic)] + events)[|events|] == events[|events| - 1];
    } else {
      var (inside, _) := RunOriginal(call, at, game);
      assert (inside + Answer(call))[|inside|] == Answer(call)[0];
    }
  }

  // ----- what the body of amx_Exec comes to -----

  /** Plugins are told of the start of a game mode, and of whatever else the game mode runs but
      continuations. */
  predicate Announced(call: Call, game: Game)
    requires call.CallExec?
  {
    call.index == -1 || (call.index != -2 && game.gamemode == Option.Some(call.amx))
  }

  /** A function that exists runs unless plugins were asked and forbid it; the start of a game mode
      they cannot forbid. */
  predicate Runs(call: Call, game: Game)
    requires call.CallExec?
  {
    call.index != -10 && (call.index == -1 || !Announced(call, game) || call.allowed)
  }

  /** A hooked execution tells the plugins first exactly when it is `Announced`, and then runs the
      original, once, exactly when it `Runs`. */
  lemma ExecTellsAndRuns(call: Call, at: Context, game: Game)
    requires call.CallExec?
    ensures var (events, _) := RunExec(call, at, game);
      var start := call.index == -1;
      var g0 := if start then Game(Option.Some(call.amx), game.currentPublic) else game;
      var (told, g1) := if Announced(call, game) then RunAll(call.handlers, at, g0) else ([], g0);
      var n := if Announced(call, game) then 1 + |told| else 0;
      (Announced(call, game) ==>
        events != [] &&
        events[0] == Handled(call.amx, start, if start then "OnGameModeInit" else game.currentPublic)) &&
      (Runs(call, game) <==> |events| > n) &&
      (Runs(call, game) ==> events[n] == Original(Exec) && events[n + 1..] == RunAll(call.inside, at, g1).0)
  {
  }

  /** A hook on its site, in or out, with the right bytes to put back. */
  ghost predicate HookOk(h: Hook, mem: array<byte>, at: Site, orig: seq<byte>, on: bool)
    reads h
  {
    h.mem == mem && h.src == at.src && h.dst == at.dst && h.installed == on &&
    at.src + JMP_INSTR_SIZE <= |orig| && (on ==> h.code == orig[at.src..at.src + JMP_INSTR_SIZE])
  }

  class AmxHooks {
    const mem: array<byte>
    const registerHook: Hook
    const findPublicHook: Hook
    const execHook: Hook
    const callbackHook: Hook
    var game: Game

    const sites: Sites
    ghost const orig: seq<byte>
    ghost var flags: Flags

    function HookOf(f: Func): Hook {
      match f
      case Register => registerHook
      case FindPublic => findPublicHook
      case Exec => execHook
      case Callback => callbackHook
    }

    ghost predicate Separate() {
      registerHook != findPublicHook && registerHook != execHook && registerHook != callbackHook &&
      findPublicHook != execHook && findPublicHook != callbackHook && execHook != callbackHook
    }

    /** The hooks agree with the flags, and memory is what the flags make it. */
    ghost predicate Valid()
      reads this, mem, registerHook, findPublicHook, execHook, callbackHook
    {
      Separate() && Apart(orig, sites) &&
      HookOk(registerHook, mem, sites.register, orig, flags.register) &&
      HookOk(findPublicHook, mem, sites.findPublic, orig, flags.findPublic) &&
      HookOk(execHook, mem, sites.exec, orig, flags.exec) &&
      HookOk(callbackHook, mem, sites.callback, orig, flags.callback) &&
      mem[..] == Image(orig, sites, flags)
    }

    /** `Initialize`: all four hooks go in. */
    constructor (mem: array<byte>, sites: Sites)
      requires Apart(mem[..], sites)
      modifies mem
      ensures Valid() && this.mem == mem && orig == old(mem[..]) && this.sites == sites
      ensures flags == ALL && game == Game(Option.None, "")
    {
      this.mem := mem;
      orig, this.sites := mem[..], sites;
      game, flags := Game(Option.None, ""), ALL;
      registerHook := new Hook(mem);
      findPublicHook := new Hook(mem);
      execHook := new Hook(mem);
      callbackHook := new Hook(mem);
      new;
      Initialize();
    }

    method Initialize()
      requires !registerHook.installed && !findPublicHook.installed && !execHook.installed && !callbackHook.installed
      requires registerHook.mem == mem && findPublicHook.mem == mem && execHook.mem == mem && callbackHook.mem == mem
      requires Separate() && Apart(orig, sites) && mem[..] == orig && flags == ALL
      modifies mem, registerHook, findPublicHook, execHook, callbackHook
      ensures Valid()
    {
      ghost var none := Flags(false, false, false, false);
      assert mem[..] == Image(orig, sites, none);
      InstallFirst(registerHook, Register, none);
      InstallFirst(findPublicHook, FindPublic, none.(register := true));
      InstallFirst(execHook, Exec, none.(register := true, findPublic := true));
      InstallFirst(callbackHook, Callback, none.(register := true, findPublic := true, exec := true));
    }

    method InstallFirst(h: Hook, f: Func, ghost before: Flags)
      requires h.mem == mem && !h.installed
      requires Apart(orig, sites) && !before.Has(f) && mem[..] == Image(orig, sites, before)
      modifies mem, h
      ensures h.installed && h.src == sites.At(f).src && h.dst == sites.At(f).dst
      ensures h.code == orig[h.src..h.src + JMP_INSTR_SIZE]
      ensures mem[..] == Image(orig, sites, before.With(f, true))
    {
      ImageInstall(orig, sites, before, f);
      ghost var at := sites.At(f);
      assert mem[at.src..at.src + JMP_INSTR_SIZE] == mem[..][at.src..at.src + JMP_INSTR_SIZE];
      var _ := h.InstallAt(sites.At(f).src, sites.At(f).dst);
    }

    /** One hook put in or taken out, as it bears on memory. */
    method InstallOn(h: Hook, f: Func) returns (ok: bool)
      requires Apart(orig, sites) && HookOk(h, mem, sites.At(f), orig, flags.Has(f))
      requires mem[..] == Image(orig, sites, flags)
      modifies mem, h
      ensures ok == !flags.Has(f) && HookOk(h, mem, sites.At(f), orig, true)
      ensures mem[..] == Image(orig, sites, flags.With(f, true))
    {
      ghost var at := sites.At(f);
      assert mem[at.src..at.src + JMP_INSTR_SIZE] == mem[..][at.src..at.src + JMP_INSTR_SIZE];
      if !flags.Has(f) {
        ImageInstall(orig, sites, flags, f);
      }
      ok := h.Install();
    }

    method RemoveFrom(h: Hook, f: Func) returns (ok: bool)
      requires Apart(orig, sites) && HookOk(h, mem, sites.At(f), orig, flags.Has(f))
      requires mem[..] == Image(orig, sites, flags)
      modifies mem, h
      ensures ok == flags.Has(f) && HookOk(h, mem, sites.At(f), orig, false)
      ensures mem[..] == Image(orig, sites, flags.With(f, false))
    {
      ImageRemove(orig, sites, flags, f);
      ok := h.Remove();
    }

    /** `jmp->Install()`, as a guard does it. */
    method Install(f: Func) returns (ok: bool)
      requires Valid()
      modifies mem, HookOf(f), `flags
      ensures Valid() && ok == !old(flags).Has(f) && flags == old(flags).With(f, true)
    {
      ok := InstallOn(HookOf(f), f);
      flags := flags.With(f, true);
    }

    /** `jmp->Remove()`. */
    method Remove(f: Func) returns (ok: bool)
      requires Valid()
      modifies mem, HookOf(f), `flags
      ensures Valid() && ok == old(flags).Has(f) && flags == old(flags).With(f, false)
    {
      ok := RemoveFrom(HookOf(f), f);
      flags := flags.With(f, false);
    }

    /** The guards of a hook body: its own hook out and, between execution and callbacks, the
        other's in. */
    method EnterBody(f: Func) returns (removed: bool, put: bool)
      requires Valid()
      modifies mem, registerHook, findPublicHook, execHook, callbackHook, `flags
      ensures Valid() && flags == Within(f, old(flags))
      ensures removed == old(flags).Has(f) && put == Puts(f, old(flags))
    {
      removed := Remove(f);
      put := false;
      if f == Exec {
        put := Install(Callback);
      } else if f == Callback {
        put := Install(Exec);
      }
    }

    /** Their destructors, in reverse order. */
    method LeaveBody(f: Func, removed: bool, put: bool, ghost before: Flags)
      requires Valid() && flags == Within(f, before) && removed == before.Has(f) && put == Puts(f, before)
      modifies mem, registerHook, findPublicHook, execHook, callbackHook, `flags
      ensures Valid() && flags == before
    {
      if put {
        var _ := Remove(if f == Exec then Callback else Exec);
      }
      if removed {
        var _ := Install(f);
      }
    }

    /** Calls, one after the other. However they nest, they leave every hook, and every byte of
        memory, as they found it, and what they intercept depends on the flags alone. */
    method Perform(calls: Calls) returns (trace: seq<Event>)
      requires Valid()
      modifies mem, registerHook, findPublicHook, execHook, callbackHook, `flags, `game
      ensures Valid() && flags == old(flags) && mem[..] == old(mem[..])
      ensures (trace, game) == RunAll(calls, ByFlags(flags), old(game))
      decreases calls, 5
    {
      match calls
      case None =>
        trace := [];
      case First(head, tail) =>
        trace := Invoke(head);
        var rest := Perform(tail);
        trace := trace + rest;
    }

    /** What the server calls from outside any hook body: which calls are intercepted is a matter of
        the bodies around them. */
    method Serve(calls: Calls) returns (trace: seq<Event>)
      requires Valid() && flags == ALL
      modifies mem, registerHook, findPublicHook, execHook, callbackHook, `flags, `game
      ensures Valid() && flags == ALL && mem[..] == old(mem[..])
      ensures (trace, game) == RunAll(calls, ByBodies([]), old(game))
    {
      BodiesDecide(calls, [], game);
      trace := Perform(calls);
    }

    /** A call of an export: the bytes at its entry decide who runs. */
    method Invoke(call: Call) returns (trace: seq<Event>)
      requires Valid()
      modifies mem, registerHook, findPublicHook, execHook, callbackHook, `flags, `game
      ensures Valid() && flags == old(flags) && mem[..] == old(mem[..])
      ensures (trace, game) == RunOne(call, ByFlags(flags), old(game))
      decreases call, 4
    {
      var at := sites.At(call.Callee());
      EntryBytes(orig, sites, flags, call.Callee());
      assert mem[at.src..at.src + JMP_INSTR_SIZE] == mem[..][at.src..at.src + JMP_INSTR_SIZE];
      if mem[at.src..at.src + JMP_INSTR_SIZE] == JumpTo(at.src, at.dst) {
        trace := HookBody(call);
      } else {
        trace := Execute(call);
        trace := trace + Answer(call);
      }
    }

    /** The original, which runs only with its own first bytes in place. */
    method Execute(call: Call) returns (trace: seq<Event>)
      requires Valid()
      requires var at := sites.At(call.Callee());
        mem[..][at.src..at.src + JMP_INSTR_SIZE] == orig[at.src..at.src + JMP_INSTR_SIZE]
      modifies mem, registerHook, findPublicHook, execHook, callbackHook, `flags, `game
      ensures Valid() && flags == old(flags) && mem[..] == old(mem[..])
      ensures (trace, game) == RunOriginal(call, ByFlags(flags), old(game))
      decreases call, 0
    {
      var inside := Perform(call.inside);
      trace := [Original(call.Callee())] + inside;
    }

    /** The body of `amx_Exec`, between its guards. */
    method ExecBody(call: Call) returns (trace: seq<Event>)
      requires Valid() && call.CallExec?
      requires mem[..][sites.exec.src..sites.exec.src + JMP_INSTR_SIZE] ==
        orig[sites.exec.src..sites.exec.src + JMP_INSTR_SIZE]
      modifies mem, registerHook, findPublicHook, execHook, callbackHook, `flags, `game
      ensures Valid() && flags == old(flags) && mem[..] == old(mem[..])
      ensures (trace, game) == RunExec(call, ByFlags(flags), old(game))
      decreases call, 1
    {
      trace := [];
      var canDoExec := true;
      if call.index == AMX_EXEC_MAIN {
        game := game.(gamemode := Option.Some(call.amx));
        var told := Perform(call.handlers);
        trace := [Handled(call.amx, true, ON_GAME_MODE_INIT)] + told;
      } else {
        if game.gamemode == Option.Some(call.amx) && call.index != AMX_EXEC_CONT {
          var name := game.currentPublic;
          var told := Perform(call.handlers);
          trace := [Handled(call.amx, false, name)] + told;
          canDoExec := call.allowed;
        }
      }
      if canDoExec && call.index != AMX_EXEC_GDK {
        var rest := Execute(call);
        assert [] + rest == rest;
        trace := trace + rest;
      }
    }

    /** The body of `amx_FindPublic`, between its guards. */
    method FindPublicBody(call: Call) returns (trace: seq<Event>)
      requires Valid() && call.CallFindPublic?
      requires mem[..][sites.findPublic.src..sites.findPublic.src + JMP_INSTR_SIZE] ==
        orig[sites.findPublic.src..sites.findPublic.src + JMP_INSTR_SIZE]
      modifies mem, registerHook, findPublicHook, execHook, callbackHook, `flags, `game
      ensures Valid() && flags == old(flags) && mem[..] == old(mem[..])
      ensures (trace, game) == RunFindPublic(call, ByFlags(flags), old(game))
      decreases call, 1
    {
      trace := Execute(call);
      var error, index := call.error, call.index;
      if game.gamemode == Option.Some(call.amx) {
        if error != AMX_ERR_NONE {
          index := AMX_EXEC_GDK;
          error := AMX_ERR_NONE;
        }
        game := game.(currentPublic := call.name);
      }
      trace := trace + [Answered(call.amx, call.name, true, call.error, call.index, error, index)];
    }

    method HookBody(call: Call) returns (trace: seq<Event>)
      requires Valid() && flags.Has(call.Callee())
      modifies mem, registerHook, findPublicHook, execHook, callbackHook, `flags, `game
      ensures Valid() && flags == old(flags) && mem[..] == old(mem[..])
      ensures (trace, game) == RunOne(call, ByFlags(flags), old(game))
      decreases call, 3
    {
      ghost var before := flags;
      var f := call.Callee();
      var removed, put := EnterBody(f);
      EntryBytes(orig, sites, flags, f);
      trace := Body(call);
      trace := [Hooked(f)] + trace;
      LeaveBody(f, removed, put, before);
    }

    /** What stands between the guards. */
    method Body(call: Call) returns (trace: seq<Event>)
      requires Valid()
      requires var at := sites.At(call.Callee());
        mem[..][at.src..at.src + JMP_INSTR_SIZE] == orig[at.src..at.src + JMP_INSTR_SIZE]
      modifies mem, registerHook, findPublicHook, execHook, callbackHook, `flags, `game
      ensures Valid() && flags == old(flags) && mem[..] == old(mem[..])
      ensures (trace, game) == RunBody(call, ByFlags(flags), old(game))
      decreases call, 2
    {
      match call {
        case CallExec(_, _, _, _, _) =>
          trace := ExecBody(call);
        case CallFindPublic(_, _, _, _, _) =>
          trace := FindPublicBody(call);
        case _ =>
          trace := Execute(call);
      }
    }
  }
}
