/** The score row that the hooks keep at the end of the game's objective panel. The game adds
    rows, rewrites them by position and clears the panel; the hooks append one row of their
    own, and swap it behind any row that the game adds after it. The panel itself and the
    guest functions that change it are part of the model; lookups of those functions, the
    state of the HUD and the composed text are inputs of each hook. */
module ObjectivePanel {
  import opened Options

  /** What one call of a hook meets: is the HUD ready, can the guest buffer be allocated, which
      guest functions does the dispatcher find, and what does the score row have to say
      (nothing when not in a level). */
  datatype Env = Env(ready: bool, inGameplay: bool, allocates: bool, findsAdd: bool, findsText: bool, findsState: bool,
                     text: Option<string>, complete: bool)

  /** The composed text always starts with "Score". */
  predicate Composed(env: Env) { env.text.Some? ==> env.text.value != "" }

  datatype Event =
    | Clear
    | Add(text: string)
    | SetText(row: nat, text: string)
    | RefreshBegin(manager: bool)
    | RefreshEnd
    | Frame
    | Toggle(on: bool)

  /** The game's rows after one more event. */
  function NextRows(rows: seq<string>, event: Event): seq<string> {
    match event
    case Clear => []
    case Add(text) => rows + [text]
    case SetText(row, text) => if row < |rows| then rows[row := text] else rows
    case _ => rows
  }

  /** The panel's rows as the game means them: what its calls would leave without the hooks. */
  function GameRows(events: seq<Event>): seq<string> {
    if events == [] then [] else NextRows(GameRows(events[..|events| - 1]), events[|events| - 1])
  }

  /** A game that rewrites only rows it has added. */
  predicate Sensible(events: seq<Event>) {
    events == [] ||
    (Sensible(events[..|events| - 1])
     && (events[|events| - 1].SetText? ==> events[|events| - 1].row < |GameRows(events[..|events| - 1])|))
  }

  /** What decides whether there is a score row: the setting, the row itself, and whether the
      guest buffer has been allocated. */
  datatype Tracked = Tracked(enabled: bool, row: bool, guest: bool)

  function Next(s: Tracked, event: Event, env: Env): Tracked {
    match event
    case Clear => s.(row := false)
    case RefreshEnd =>
      if !s.enabled || s.row || !env.inGameplay || !env.ready || env.text.None? then s
      else s.(guest := s.guest || env.allocates, row := (s.guest || env.allocates) && env.findsAdd)
    case Toggle(on) => s.(enabled := on)
    case _ => s
  }

  function Tracks(enabled: bool, events: seq<Event>, envs: seq<Env>): Tracked
    requires |envs| == |events|
  {
    if events == [] then Tracked(enabled, false, false)
    else
      var last := |events| - 1;
      Next(Tracks(enabled, events[..last], envs[..last]), events[last], envs[last])
  }

  /** An add that meets a score row, and cannot swap it, for SetObjectiveText is not found. */
  predicate CannotSwap(s: Tracked, event: Event, env: Env) {
    event.Add? && s.row && !env.findsText
  }

  ghost predicate SwapFails(enabled: bool, events: seq<Event>, envs: seq<Env>, i: nat)
    requires i < |envs| == |events|
  {
    CannotSwap(Tracks(enabled, events[..i], envs[..i]), events[i], envs[i])
  }

  ghost predicate SwapsPossible(enabled: bool, events: seq<Event>, envs: seq<Env>)
    requires |envs| == |events|
  {
    forall i: nat | i < |events| :: !SwapFails(enabled, events, envs, i)
  }

  lemma TracksNext(enabled: bool, events: seq<Event>, envs: seq<Env>, i: nat)
    requires i < |envs| == |events|
    ensures Tracks(enabled, events[..i + 1], envs[..i + 1])
         == Next(Tracks(enabled, events[..i], envs[..i]), events[i], envs[i])
  {
    assert events[..i + 1][..i] == events[..i] && envs[..i + 1][..i] == envs[..i];
  }

  lemma GameRowsNext(events: seq<Event>, i: nat)
    requires i < |events| && Sensible(events)
    ensures GameRows(events[..i + 1]) == NextRows(GameRows(events[..i]), events[i])
    ensures events[i].SetText? ==> events[i].row < |GameRows(events[..i])|
  {
    assert events[..i + 1][..i] == events[..i];
    SensiblePrefix(events, i + 1);
  }

  class ObjectivePanel {
    var enabled: bool
    var rows: nat
    var scoreRow: int
    var self: bool
    var inRefresh: bool
    var scoreRowState: int
    var managerKnown: bool
    var rebuild: bool
    var scoreTextGuest: Option<string>
    var scoreTextLast: string
    var tick: nat
    var panel: seq<string>
    ghost var game: seq<string>

    /** The game's rows in the order added, followed by at most one score row, which
        g_score_row then names. */
    ghost predicate Valid()
      reads this
    {
      && rows == |game| && !self && -1 <= scoreRow
      && (scoreRow < 0 ==> panel == game)
      && (scoreRow >= 0 ==>
            && scoreRow == rows && |panel| == rows + 1 && panel[..rows] == game
            && scoreTextLast != "" && scoreTextGuest.Some?)
    }

    /** And the score row shows the text pushed last, or nothing, as does the guest buffer. */
    ghost predicate Faithful()
      reads this
    {
      Valid() && (scoreRow >= 0 ==> Shows(panel[rows]) && Shows(scoreTextGuest.value))
    }

    ghost predicate Shows(text: string)
      reads this
    {
      text == scoreTextLast || text == ""
    }

    function View(): Tracked
      reads this
    {
      Tracked(enabled, scoreRow >= 0, scoreTextGuest.Some?)
    }

    constructor (enabled: bool)
      ensures Faithful() && game == [] && panel == [] && View() == Tracked(enabled, false, false)
    {
      this.enabled := enabled;
      rows, scoreRow, scoreRowState, tick := 0, -1, 0, 0;
      self, inRefresh, managerKnown, rebuild := false, false, false, false;
      scoreTextGuest, scoreTextLast := None, "";
      panel, game := [], [];
    }

    // ---- the guest functions ----

    method SetObjectiveText(row: int, text: string)
      modifies `panel
      ensures panel == if 0 <= row < |old(panel)| then old(panel)[row := text] else old(panel)
    {
      if 0 <= row < |panel| { panel := panel[row := text]; }
    }

    /** AddObjective, with the hook at its entry. */
    method AddObjective(text: string, env: Env)
      requires self || Valid()
      modifies this
      ensures old(self) ==>
                panel == old(panel) + [text] && unchanged(`rows, `scoreRow, `self, `inRefresh, `enabled, `tick)
      ensures old(self) ==> unchanged(`scoreRowState, `scoreTextGuest, `scoreTextLast, `managerKnown, `rebuild, `game)
      ensures !old(self) ==> game == old(game) + [text] && rows == |game| && !self && enabled == old(enabled)
      ensures !old(self) ==> (Valid() <==> env.findsText || old(scoreRow) < 0)
      ensures Valid() && !old(self) ==> scoreRow == if old(scoreRow) < 0 then -1 else |game|
      ensures Valid() && !old(self) ==> View() == old(View()) && (old(Faithful()) ==> Faithful())
      ensures !Valid() && !old(self) ==> scoreRow == -1 && panel == old(panel) + [text]
    {
      var shown := OnObjboxAdd(text, env);
      panel := panel + [shown];
      if !self { game := game + [text]; }
    }

    // ---- the hooks ----

    method OnObjboxClear()
      modifies `rows, `scoreRow, `scoreRowState, `scoreTextLast
      ensures rows == 0 && scoreRow == -1 && scoreRowState == 0 && scoreTextLast == ""
    {
      rows := 0;
      scoreRow := -1;
      scoreRowState := 0;
      scoreTextLast := "";
    }

    /** The text that the add goes on with: the game's, or ours when our row has to make room. */
    method OnObjboxAdd(text: string, env: Env) returns (r4: string)
      modifies this
      ensures unchanged(`game, `enabled, `self, `inRefresh, `tick, `managerKnown, `rebuild, `scoreTextGuest)
      ensures old(self) ==> r4 == text && unchanged(this)
      ensures !old(self) ==> rows == old(rows) + 1
      ensures !old(self) && old(scoreRow) < 0 ==> r4 == text && unchanged(`scoreRow, `panel, `scoreTextLast)
      ensures !old(self) && old(scoreRow) >= 0 && old(CanSwap(env)) ==>
                r4 == scoreTextGuest.value && scoreRow == old(rows) + 1 && scoreTextLast == old(scoreTextLast)
                && scoreRowState == 0
                && panel == if old(scoreRow) < |old(panel)| then old(panel)[old(scoreRow) := text] else old(panel)
      ensures !old(self) && old(scoreRow) >= 0 && !old(CanSwap(env)) ==>
                r4 == text && scoreRow == -1 && scoreTextLast == "" && panel == old(panel)
    {
      if self { return text; }
      var before := rows;
      rows := rows + 1;
      var ours := scoreRow;
      if ours < 0 { return text; }
      if !env.findsText || scoreTextGuest.None? || scoreTextLast == "" {
        scoreRow := -1;
        scoreTextLast := "";
        return text;
      }
      self := true;
      SetObjectiveText(ours, text);
      self := false;
      r4 := scoreTextGuest.value;
      scoreRow := before + 1;
      scoreRowState := 0;
    }

    ghost predicate CanSwap(env: Env)
      reads this
    {
      env.findsText && scoreTextGuest.Some? && scoreTextLast != ""
    }

    /** The two ways for the text to get into the panel. */
    method AppendRow(text: string, env: Env) returns (ok: bool)
      requires !self
      modifies this
      ensures !self && unchanged(`enabled, `rows, `inRefresh, `tick, `managerKnown, `rebuild, `game)
      ensures unchanged(`scoreTextGuest, `scoreTextLast) && ok == env.findsAdd
      ensures if ok then scoreRow == rows && scoreRowState == 0 && panel == old(panel) + [text]
              else scoreRow == old(scoreRow) && scoreRowState == old(scoreRowState) && panel == old(panel)
    {
      if !env.findsAdd { return false; }
      var idx := rows;
      self := true;
      AddObjective(text, env);
      self := false;
      scoreRow := idx;
      scoreRowState := 0;
      return true;
    }

    method RewriteRow(text: string, textSame: bool, env: Env) returns (ok: bool)
      requires !self
      modifies `self, `panel
      ensures !self && ok == (scoreRow >= 0 && (textSame || env.findsText))
      ensures panel == if ok && !textSame && scoreRow < |old(panel)| then old(panel)[scoreRow := text] else old(panel)
    {
      var idx := scoreRow;
      if idx < 0 { return false; }
      if !textSame {
        if !env.findsText { return false; }
        self := true;
        SetObjectiveText(idx, text);
        self := false;
      }
      return true;
    }

    predicate CanAppend(env: Env)
      reads this
    {
      enabled && env.ready && env.text.Some? && env.findsAdd && (env.allocates || scoreTextGuest.Some?)
    }

    /** The score row is there and has something new to say, and can. */
    predicate Rewrites(env: Env)
      reads this
    {
      enabled && env.ready && scoreRow >= 0 && env.findsText && env.text.Some? && env.text.value != scoreTextLast
    }

    /** The score row's check mark can be brought up to date. */
    predicate Marks(env: Env)
      reads this
    {
      enabled && env.ready && scoreRow >= 0 && env.findsState && env.text.Some?
      && (env.findsText || env.text.value == scoreTextLast)
    }

    method PushScore(append: bool, env: Env)
      requires !self && Composed(env) && (append ==> scoreRow < 0)
      modifies this
      ensures !self && unchanged(`game, `enabled, `rows, `inRefresh, `tick)
      ensures old(Valid()) ==> Valid()
      ensures old(Faithful()) && (append || env.findsText) ==> Faithful()
      ensures append && old(CanAppend(env)) ==> scoreRow == rows && panel == old(panel) + [env.text.value]
      ensures append && !old(CanAppend(env)) ==> scoreRow == old(scoreRow) && panel == old(panel)
      ensures append ==>
                scoreTextGuest.Some?
                == (old(scoreTextGuest).Some? || (enabled && env.ready && env.text.Some? && env.allocates))
      ensures old(scoreTextGuest).Some? ==> scoreTextGuest.Some?
      ensures !append ==> scoreRow == old(scoreRow) && (!env.findsText ==> panel == old(panel))
      ensures append && old(CanAppend(env)) ==>
                scoreTextLast == env.text.value && scoreTextGuest == Some(env.text.value)
                && scoreRowState == if env.complete && env.findsState then 1 else 0
      ensures old(Valid()) && !append ==>
                panel == if old(Rewrites(env)) then game + [env.text.value] else old(panel)
      ensures old(Valid()) && !append ==>
                scoreTextLast == if old(Rewrites(env)) then env.text.value else old(scoreTextLast)
      ensures old(Valid()) && !append ==>
                scoreRowState == if old(Marks(env)) then (if env.complete then 1 else 0) else old(scoreRowState)
      ensures unchanged(`managerKnown, `rebuild)
      ensures old(Valid()) && !append && enabled && env.ready && env.text.Some? && env.findsText && scoreRow >= 0 ==>
                (panel == game + [env.text.value] <==>
                 (env.text.value != old(scoreTextLast) || panel == game + [old(scoreTextLast)]))
    {
      if !enabled || !env.ready || env.text.None? { return; }
      var text := env.text.value;
      var textSame := !append && text == scoreTextLast;
      var wantState := if env.complete then 1 else 0;
      if textSame && wantState == scoreRowState { return; }
      if scoreTextGuest.None? {
        if !env.allocates { return; }
      }
      scoreTextGuest := Some(text);
      var ok;
      if append { ok := AppendRow(text, env); } else { ok := RewriteRow(text, textSame, env); }
      if !ok { return; }
      scoreTextLast := text;
      if wantState != scoreRowState && env.findsState {
        scoreRowState := wantState;
      }
    }

    method SetScoreObjective(on: bool, env: Env)
      requires Valid()
      modifies this
      ensures Valid() && unchanged(`game, `rows, `scoreRow, `scoreRowState, `scoreTextLast, `inRefresh, `tick)
      ensures View() == old(View()).(enabled := on)
      ensures old(Faithful()) ==> Faithful()
      ensures panel == if !on && scoreRow >= 0 && env.ready && env.findsText then game + [""] else old(panel)
      ensures rebuild == (old(rebuild) || managerKnown)
    {
      enabled := on;
      if !on {
        var idx := scoreRow;
        if idx >= 0 && scoreTextGuest.Some? {
          if env.ready && env.findsText {
            scoreTextGuest := Some("");
            self := true;
            SetObjectiveText(idx, "");
            self := false;
          }
        }
      }
      if managerKnown { rebuild := true; }
    }

    /** Once in fifteen frames, and never during a refresh. */
    method UpdateScoreObjective(env: Env)
      requires Valid() && Composed(env)
      modifies this
      ensures Valid() && unchanged(`game, `enabled, `rows, `scoreRow, `inRefresh, `managerKnown)
      ensures View() == old(View()) && (old(Faithful()) && env.findsText ==> Faithful())
      ensures tick == old(tick) + 1
      ensures var due := !old(inRefresh) && old(tick) % 15 == 0 && enabled && old(scoreRow) >= 0 && env.ready;
        && panel == (if due && env.findsText && env.text.Some? && env.text.value != old(scoreTextLast)
                     then game + [env.text.value] else old(panel))
        && scoreTextLast == (if due && env.findsText && env.text.Some? then env.text.value else old(scoreTextLast))
        && scoreRowState == (if due && env.findsState && env.text.Some?
                                && (env.findsText || env.text.value == old(scoreTextLast))
                             then (if env.complete then 1 else 0) else old(scoreRowState))
      ensures rebuild == (old(rebuild) || (!old(inRefresh) && old(tick) % 15 == 0
                                           && enabled != (old(scoreRow) >= 0) && managerKnown))
    {
      var due := tick % 15 == 0;
      tick := tick + 1;
      if !due || inRefresh { return; }
      if !enabled {
        if scoreRow >= 0 && managerKnown { rebuild := true; }
        return;
      }
      if scoreRow < 0 {
        if managerKnown { rebuild := true; }
        return;
      }
      PushScore(false, env);
    }

    method OnRefreshBegin(manager: bool)
      modifies `managerKnown, `inRefresh
      ensures inRefresh && managerKnown == (old(managerKnown) || manager)
    {
      if manager { managerKnown := true; }
      inRefresh := true;
    }

    method OnRefreshEnd(env: Env)
      requires !self && Composed(env)
      modifies this
      ensures !self && unchanged(`game, `enabled, `rows) && !inRefresh
      ensures (old(Valid()) ==> Valid()) && (old(Faithful()) ==> Faithful())
      ensures View() == Next(old(View()), RefreshEnd, env)
      ensures panel == if old(scoreRow) < 0 && env.inGameplay && old(CanAppend(env)) then old(panel) + [env.text.value]
                       else old(panel)
      ensures scoreRow == if old(scoreRow) < 0 && env.inGameplay && old(CanAppend(env)) then rows else old(scoreRow)
      ensures old(scoreRow) < 0 && env.inGameplay && old(CanAppend(env)) ==>
                scoreTextLast == env.text.value && scoreRowState == if env.complete && env.findsState then 1 else 0
    {
      inRefresh := false;
      if !enabled || scoreRow >= 0 || !env.inGameplay { return; }
      PushScore(true, env);
    }

    // ---- runs ----

    /** ClearObjectiveBox, with the hook at its entry. It heals the bookkeeping whatever came
        before it. */
    method ClearObjectiveBox()
      requires !self
      modifies this
      ensures Faithful() && game == [] && panel == [] && View() == old(View()).(row := false)
    {
      OnObjboxClear();
      panel := [];
      game := [];
    }

    method Handle(event: Event, env: Env)
      requires Valid() && Composed(env) && (event.SetText? ==> event.row < |game|)
      requires !CannotSwap(View(), event, env)
      modifies this
      ensures Valid() && View() == Next(old(View()), event, env)
      ensures old(Faithful()) && (event.Frame? ==> env.findsText) ==> Faithful()
      ensures game == NextRows(old(game), event)
    {
      match event {
        case Clear => ClearObjectiveBox();
        case Add(text) => AddObjective(text, env);
        case SetText(row, text) =>
          SetObjectiveText(row, text);
          game := game[row := text];
        case RefreshBegin(manager) => OnRefreshBegin(manager);
        case RefreshEnd => OnRefreshEnd(env);
        case Frame => UpdateScoreObjective(env);
        case Toggle(on) => SetScoreObjective(on, env);
      }
    }
  }

  /** When SetObjectiveText is not found for a swap, the next append before a clear takes the
      game's newest row for the score row: g_score_row names a row of the game. */
  method FailedSwap(p: ObjectivePanel, text: string, env: Env, next: Env)
    requires p.Valid() && p.enabled && p.scoreRow >= 0 && !env.findsText
    requires Composed(next) && next.inGameplay && next.ready && next.allocates && next.findsAdd
        && next.text.Some?
    modifies p
    ensures !p.Valid() && p.game == old(p.game) + [text]
    ensures 0 <= p.scoreRow < |p.panel| && p.panel[p.scoreRow] == text
  {
    p.AddObjective(text, env);
    p.OnRefreshEnd(next);
  }

  /** Every run of the hooks, up to the first add that meets a score row and cannot swap it. If
      there is none, the panel shows exactly the rows that the game means, followed by at most
      one score row; if there is one, it ends this. The run stops after `n` events and, when it
      stops early, one more. */
  method Run(enabled: bool, events: seq<Event>, envs: seq<Env>) returns (p: ObjectivePanel, n: nat)
    requires Sensible(events) && |envs| == |events| && forall env | env in envs :: Composed(env)
    ensures n <= |events| && (n == |events| <==> SwapsPossible(enabled, events, envs))
    ensures n == |events| ==> p.Valid() && p.game == GameRows(events)
    ensures n == |events| ==>
              || p.panel == GameRows(events)
              || (p.scoreRow == |GameRows(events)| && p.panel[..p.scoreRow] == GameRows(events)
                  && |p.panel| == p.scoreRow + 1)
    ensures n < |events| ==> !p.Valid() && p.game == GameRows(events[..n + 1])
  {
    p := new ObjectivePanel(enabled);
    n := 0;
    while n < |events| && !CannotSwap(p.View(), events[n], envs[n])
      invariant fresh(p) && n <= |events| && p.Valid() && p.game == GameRows(events[..n])
      invariant p.View() == Tracks(enabled, events[..n], envs[..n])
      invariant forall i: nat | i < n :: !SwapFails(enabled, events, envs, i)
    {
      GameRowsNext(events, n);
      TracksNext(enabled, events, envs, n);
      p.Handle(events[n], envs[n]);
      n := n + 1;
    }
    assert events[..|events|] == events;
    if n < |events| {
      assert SwapFails(enabled, events, envs, n);
      GameRowsNext(events, n);
      p.AddObjective(events[n].text, envs[n]);
    }
  }

  lemma {:induction false} SensiblePrefix(events: seq<Event>, i: nat)
    requires Sensible(events) && i <= |events|
    ensures Sensible(events[..i])
    decreases |events|
  {
    if i < |events| {
      SensiblePrefix(events[..|events| - 1], i);
      assert events[..|events| - 1][..i] == events[..i];
    } else {
      assert events[..i] == events;
    }
  }
}
