/** The front ends' UI state and how Kakoune's JSON-RPC messages update it
    (kakoune.js `on_message`, Kakoune.tsx `on_message`), and the refresh
    coalescing of kakoune.js (`schedule_refresh` / `actual_refresh`). */
module Messages {
  import opened Prelude
  import Atoms

  /** A JSON value as it arrives over the socket. */
  datatype Json =
    | JNull
    | JBool(b: bool)
    | JNum(n: int)
    | JStr(s: string)
    | JArr(items: seq<Json>)
    | JObj(fields: map<string, Json>)

  datatype Message = Message(name: string, params: seq<Json>)

  /** The state object: a field holding `undefined` is absent. */
  type State = map<string, Json>

  /** Which front end processes the message. */
  datatype Frontend = KakouneJs | KakouneTsx

  /** `shows`: the field each show method stores its `params` in. */
  const Shows: map<string, string> := map[
    "menu_show" := "menu", "info_show" := "info", "menu_select" := "selected",
    "draw" := "main", "draw_status" := "status", "set_cursor" := "cursor"]

  /** `hides`: the fields each hide method clears. */
  const Hides: map<string, seq<string>> := map[
    "menu_hide" := ["menu", "selected"], "info_hide" := ["info"]]

  const UiOptions: string := "ui_options"

  /** A field's value, `None` for `undefined`. */
  function Get(st: State, f: string): Option<Json> {
    if f in st then Some(st[f]) else None
  }

  /** Stores `v`, or clears the field when `v` is `undefined`. */
  function Put(st: State, f: string, v: Option<Json>): (r: State)
    ensures Get(r, f) == v
    ensures forall g :: g != f ==> Get(r, g) == Get(st, g)
  {
    match v
    case None => st - {f}
    case Some(x) => st[f := x]
  }

  /** The fields a message writes. */
  function Touched(m: Message, fe: Frontend): set<string> {
    if m.name == "set_ui_options" then (if fe == KakouneJs then {UiOptions} else {})
    else if m.name in Hides then (set f | f in Hides[m.name])
    else if m.name in Shows then {Shows[m.name]}
    else {}
  }

  /** The value a touched field is left holding. */
  function Effect(m: Message, fe: Frontend, f: string): Option<Json> {
    if m.name == "set_ui_options" then (if |m.params| > 0 then Some(m.params[0]) else None)
    else if m.name in Hides then None
    else Some(JArr(m.params))
  }

  /** One message: `set_ui_options` stores `params[0]` (kakoune.js only;
      Kakoune.tsx ignores it), a hide method clears each of its fields, a
      show method stores `params` in its field, and any other method leaves
      the state alone. */
  function Step(st: State, m: Message, fe: Frontend): (r: State)
    ensures forall f :: f !in Touched(m, fe) ==> Get(r, f) == Get(st, f)
    ensures forall f :: f in Touched(m, fe) ==> Get(r, f) == Effect(m, fe, f)
  {
    if m.name == "set_ui_options" then
      if fe == KakouneJs then Put(st, UiOptions, if |m.params| > 0 then Some(m.params[0]) else None) else st
    else if m.name in Hides then ClearAll(st, Hides[m.name])
    else if m.name in Shows then st[Shows[m.name] := JArr(m.params)]
    else st
  }

  function ClearAll(st: State, fields: seq<string>): (r: State)
    ensures forall f :: f in fields ==> f !in r
    ensures forall f :: f !in fields ==> Get(r, f) == Get(st, f)
  {
    if |fields| == 0 then st else ClearAll(st - {fields[0]}, fields[1..])
  }

  /** `messages.forEach(...)`: the messages of one batch, in order. */
  function Process(st: State, ms: seq<Message>, fe: Frontend): State
    decreases |ms|
  {
    if |ms| == 0 then st else Process(Step(st, ms[0], fe), ms[1..], fe)
  }

  /** A field no message of the batch writes keeps its value. */
  lemma {:induction false} ProcessUntouched(st: State, ms: seq<Message>, fe: Frontend, f: string)
    requires forall j :: 0 <= j < |ms| ==> f !in Touched(ms[j], fe)
    ensures Get(Process(st, ms, fe), f) == Get(st, f)
    decreases |ms|
  {
    if |ms| > 0 {
      ProcessUntouched(Step(st, ms[0], fe), ms[1..], fe, f);
    }
  }

  /** Messages apply in order: a field ends up as the last message that
      writes it left it. */
  lemma {:induction false} ProcessLastWriter(st: State, ms: seq<Message>, fe: Frontend, f: string, i: nat)
    requires i < |ms| && f in Touched(ms[i], fe)
    requires forall j :: i < j < |ms| ==> f !in Touched(ms[j], fe)
    ensures Get(Process(st, ms, fe), f) == Effect(ms[i], fe, f)
    decreases |ms|
  {
    if i == 0 {
      ProcessUntouched(Step(st, ms[0], fe), ms[1..], fe, f);
    } else {
      ProcessLastWriter(Step(st, ms[0], fe), ms[1..], fe, f, i - 1);
    }
  }

  /** Processing two batches is processing their concatenation. */
  lemma {:induction false} ProcessAppend(st: State, a: seq<Message>, b: seq<Message>, fe: Frontend)
    ensures Process(st, a + b, fe) == Process(Process(st, a, fe), b, fe)
    decreases |a|
  {
    if |a| > 0 {
      assert (a + b)[0] == a[0];
      assert (a + b)[1..] == a[1..] + b;
      assert Process(st, a + b, fe) == Process(Step(st, a[0], fe), a[1..] + b, fe);
      ProcessAppend(Step(st, a[0], fe), a[1..], b, fe);
    } else {
      assert a + b == b;
    }
  }

  /** Hiding the menu clears both the menu and the selection. */
  lemma MenuHideClears(st: State, params: seq<Json>, fe: Frontend)
    ensures Get(Step(st, Message("menu_hide", params), fe), "menu").None?
    ensures Get(Step(st, Message("menu_hide", params), fe), "selected").None?
  {
    assert "menu_hide" in Hides;
    assert "menu" in Hides["menu_hide"] && "selected" in Hides["menu_hide"];
  }

  /** Kakoune.tsx never writes `ui_options`; on every other method the two
      front ends agree. */
  lemma TsxIgnoresUiOptions(st: State, ms: seq<Message>)
    ensures Get(Process(st, ms, KakouneTsx), UiOptions) == Get(st, UiOptions)
  {
    forall j | 0 <= j < |ms| ensures UiOptions !in Touched(ms[j], KakouneTsx) {
      assert forall h :: h in Hides ==> UiOptions !in Hides[h];
      assert forall s :: s in Shows ==> Shows[s] != UiOptions;
    }
    ProcessUntouched(st, ms, KakouneTsx, UiOptions);
  }

  lemma {:induction false} FrontendsAgree(st: State, ms: seq<Message>)
    requires forall j :: 0 <= j < |ms| ==> ms[j].name != "set_ui_options"
    ensures Process(st, ms, KakouneJs) == Process(st, ms, KakouneTsx)
    decreases |ms|
  {
    if |ms| > 0 {
      FrontendsAgree(Step(st, ms[0], KakouneJs), ms[1..]);
    }
  }

  /** The requester kakoune.js keeps in `rAF`: `armed` while it is the real
      `requestAnimationFrame`, disarmed while it is the no-op; `pending`
      counts the frames requested and not yet run. */
  datatype Refresher = Refresher(armed: bool, pending: nat)

  const InitialRefresher: Refresher := Refresher(true, 0)

  /** Refreshes coalesce: at most one is pending, and the requester is armed
      exactly when none is. */
  predicate Coalesced(r: Refresher) {
    r.pending <= 1 && (r.armed <==> r.pending == 0)
  }

  /** `schedule_refresh`: request a frame through the current requester,
      then disarm it. */
  function Schedule(r: Refresher): (r': Refresher)
    ensures !r'.armed
    ensures Coalesced(r) ==> Coalesced(r') && r'.pending == 1
  {
    Refresher(false, if r.armed then r.pending + 1 else r.pending)
  }

  /** The browser runs a requested frame: `actual_refresh` re-arms the
      requester. `ran` says whether a refresh ran. */
  datatype FrameOutcome = FrameOutcome(refresher: Refresher, ran: bool)

  function Frame(r: Refresher): (o: FrameOutcome)
    ensures o.ran <==> r.pending > 0
    ensures Coalesced(r) ==> Coalesced(o.refresher)
    ensures o.ran ==> o.refresher.armed
  {
    if r.pending > 0 then FrameOutcome(Refresher(true, r.pending - 1), true) else FrameOutcome(r, false)
  }

  /** Scheduling again before the frame requests nothing more. */
  lemma ScheduleIdempotent(r: Refresher)
    ensures Schedule(Schedule(r)) == Schedule(r)
  {
  }

  datatype Event = ScheduleEvent | FrameEvent

  datatype Trace = Trace(refresher: Refresher, refreshes: nat)

  function RunEvents(r: Refresher, evs: seq<Event>): Trace
    decreases |evs|
  {
    if |evs| == 0 then Trace(r, 0)
    else match evs[0]
      case ScheduleEvent => RunEvents(Schedule(r), evs[1..])
      case FrameEvent =>
        var o := Frame(r);
        var t := RunEvents(o.refresher, evs[1..]);
        Trace(t.refresher, t.refreshes + if o.ran then 1 else 0)
  }

  function CountSchedules(evs: seq<Event>): nat
    decreases |evs|
  {
    if |evs| == 0 then 0 else (if evs[0].ScheduleEvent? then 1 else 0) + CountSchedules(evs[1..])
  }

  /** Over any sequence of schedules and frames, starting coalesced: the
      state stays coalesced, and no more refreshes run than there were
      schedules (plus the one already pending). */
  lemma {:induction false} RefreshCoalescing(r: Refresher, evs: seq<Event>)
    requires Coalesced(r)
    ensures Coalesced(RunEvents(r, evs).refresher)
    ensures RunEvents(r, evs).refreshes + RunEvents(r, evs).refresher.pending <= CountSchedules(evs) + r.pending
    decreases |evs|
  {
    if |evs| > 0 {
      match evs[0]
      case ScheduleEvent => RefreshCoalescing(Schedule(r), evs[1..]);
      case FrameEvent => RefreshCoalescing(Frame(r).refresher, evs[1..]);
    }
  }

  /** kakoune.js `on_message`: the batch is processed, then one refresh is
      scheduled. */
  function OnMessageJs(st: State, r: Refresher, ms: seq<Message>): (out: (State, Refresher))
    ensures out.0 == Process(st, ms, KakouneJs) && !out.1.armed
    ensures Coalesced(r) ==> out.1.pending == 1
  {
    (Process(st, ms, KakouneJs), Schedule(r))
  }

  /** Kakoune.tsx `on_message` publishes a shallow copy of the processed
      state through `set_state`; as a value the copy is the state. */
  function OnMessageTsx(st: State, ms: seq<Message>): (published: State)
    ensures forall f :: f !in st && (forall j :: 0 <= j < |ms| ==> f !in Touched(ms[j], KakouneTsx)) ==> f !in published
    ensures forall f :: (forall j :: 0 <= j < |ms| ==> f !in Touched(ms[j], KakouneTsx)) ==> Get(published, f) == Get(st, f)
    ensures forall f, i :: 0 <= i < |ms| && f in Touched(ms[i], KakouneTsx) && (forall j :: i < j < |ms| ==> f !in Touched(ms[j], KakouneTsx))
              ==> Get(published, f) == Effect(ms[i], KakouneTsx, f)
  {
    var r := Process(st, ms, KakouneTsx);
    assert forall f :: (forall j :: 0 <= j < |ms| ==> f !in Touched(ms[j], KakouneTsx)) ==> Get(r, f) == Get(st, f) by {
      forall f | forall j :: 0 <= j < |ms| ==> f !in Touched(ms[j], KakouneTsx) ensures Get(r, f) == Get(st, f) {
        ProcessUntouched(st, ms, KakouneTsx, f);
      }
    }
    assert forall f, i :: 0 <= i < |ms| && f in Touched(ms[i], KakouneTsx) && (forall j :: i < j < |ms| ==> f !in Touched(ms[j], KakouneTsx))
             ==> Get(r, f) == Effect(ms[i], KakouneTsx, f) by {
      forall f, i | 0 <= i < |ms| && f in Touched(ms[i], KakouneTsx) && (forall j :: i < j < |ms| ==> f !in Touched(ms[j], KakouneTsx))
        ensures Get(r, f) == Effect(ms[i], KakouneTsx, f)
      {
        ProcessLastWriter(st, ms, KakouneTsx, f, i);
      }
    }
    r
  }

  /** No message writes a field named `rows`: it is neither a show field nor
      a hide field, and `set_ui_options` writes only `ui_options`. */
  lemma RowsUntouched(m: Message, fe: Frontend)
    ensures "rows" !in Touched(m, fe)
  {
    if m.name != "set_ui_options" && m.name in Hides {
      assert forall k :: k in Hides ==> "rows" !in Hides[k];
    }
  }

  /** Kakoune.tsx as written: its state starts as `{}` and only the message
      handler writes it, so `state.rows` stays `undefined` after any batches;
      the menu, sliced to `state.rows - 3`, then shows no item at all. */
  lemma TsxMenuAsWritten(batches: seq<seq<Message>>, items: seq<seq<Atoms.Atom>>, selected: Option<seq<int>>, selectedFace: Atoms.Face, face: Atoms.Face)
    ensures Get(TsxRun(map[], batches), "rows") == None
    ensures Atoms.Menu(items, None, selected, selectedFace, face) == []
  {
    TsxRunFrom(map[], batches);
  }

  /** The states Kakoune.tsx publishes over a run of batches. */
  function TsxRun(st: State, batches: seq<seq<Message>>): State
    decreases |batches|
  {
    if |batches| == 0 then st else TsxRun(OnMessageTsx(st, batches[0]), batches[1..])
  }

  /** From a state without `rows`, no run of batches adds it. */
  lemma {:induction false} TsxRunFrom(st: State, batches: seq<seq<Message>>)
    requires "rows" !in st
    ensures "rows" !in TsxRun(st, batches)
    decreases |batches|
  {
    if |batches| > 0 {
      forall j | 0 <= j < |batches[0]| ensures "rows" !in Touched(batches[0][j], KakouneTsx) {
        RowsUntouched(batches[0][j], KakouneTsx);
      }
      TsxRunFrom(OnMessageTsx(st, batches[0]), batches[1..]);
    }
  }
}
