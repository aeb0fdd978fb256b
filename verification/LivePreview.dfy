/** The editor side of the live preview: what is posted to the frame and when. */
module LivePreview {
  import opened Forms
  import opened RowKeys

  const MAX_CONCURRENT_EDITS := 16

  /** `JSON.stringify`, left abstract. */
  type Serialize = Tree -> string

  type Form = map<string, Tree>

  /** Messages from the frame; select, hover and patch only call back into the
      parent, which answers with a new form. */
  datatype Message = Ready | EditStart(path: string) | EditEnd(path: string) | Callback

  datatype Event =
    | Render(form: Form)  // a new form object is rendered; its effect is queued
    | RunEffects          // the queued `[form]` effect runs
    | Frame               // the browser runs a requested animation frame
    | Load                // the iframe's `load` event
    | Receive(msg: Message)
    | Unmount

  /** `frames` counts the callbacks the browser still holds, `posted` is every
      snapshot handed to `postMessage`, in order. */
  datatype Pane = Pane(
    form: Form, effect: bool, ready: bool, raf: bool, frames: nat,
    lastSent: Option<string>, editing: set<string>, posted: seq<string>, mounted: bool)

  function Snapshot(ser: Serialize, p: Pane): string { ser(Strip(Obj(p.form))) }

  predicate Synced(ser: Serialize, p: Pane) { p.lastSent == Some(Snapshot(ser, p)) }

  function Post(ser: Serialize, p: Pane): Pane {
    if p.editing != {} || Synced(ser, p) then p
    else p.(lastSent := Some(Snapshot(ser, p)), posted := p.posted + [Snapshot(ser, p)])
  }

  predicate Overflows(p: Pane, e: Event) {
    p.mounted && e.Receive? && e.msg.EditStart? && |p.editing| >= MAX_CONCURRENT_EDITS
  }

  function PaneStep(ser: Serialize, p: Pane, e: Event): Pane {
    if !p.mounted then p
    else match e
      case Render(form) => p.(form := form, effect := true)
      case RunEffects =>
        if p.effect && p.ready && !p.raf then p.(effect := false, raf := true, frames := p.frames + 1)
        else p.(effect := false)
      case Frame =>
        if p.frames == 0 then p
        else
          var q := p.(raf := false, frames := p.frames - 1);
          if q.ready then Post(ser, q) else q
      case Load => Post(ser, p.(ready := true))
      case Receive(Ready) => Post(ser, p.(ready := true))
      case Receive(EditStart(path)) =>
        if |p.editing| >= MAX_CONCURRENT_EDITS then p.(editing := {}) else p.(editing := p.editing + {path})
      case Receive(EditEnd(path)) =>
        var q := p.(editing := p.editing - {path});
        if q.editing == {} then Post(ser, q) else q
      case Receive(Callback) => p
      case Unmount => p.(mounted := false, effect := false, frames := if p.raf && p.frames > 0 then p.frames - 1 else p.frames)
  }

  /** The event runs a send that no edit in progress suppresses. */
  predicate Attempts(ser: Serialize, p: Pane, e: Event) {
    var q := PaneStep(ser, p, e);
    p.mounted && q.editing == {} &&
    match e
    case Frame => p.frames > 0 && p.ready
    case Load => true
    case Receive(msg) => msg.Ready? || msg.EditEnd?
    case _ => false
  }

  /** What every event keeps: at most 16 edits, a frame held exactly while the ref says
      so, the last send remembered, no snapshot posted twice in a row. */
  predicate PaneInv(p: Pane) {
    && |p.editing| <= MAX_CONCURRENT_EDITS
    && p.frames == (if p.mounted && p.raf then 1 else 0)
    && p.lastSent == (if p.posted == [] then None else Some(p.posted[|p.posted| - 1]))
    && (forall i | 0 <= i < |p.posted| - 1 :: p.posted[i] != p.posted[i + 1])
  }

  lemma PostKeepsInv(ser: Serialize, p: Pane)
    requires PaneInv(p)
    ensures PaneInv(Post(ser, p)) && (p.editing == {} ==> Synced(ser, Post(ser, p)))
    ensures Post(ser, p).posted == p.posted || Post(ser, p).posted == p.posted + [Snapshot(ser, p)]
  {
  }

  predicate PaneStepOk(ser: Serialize, p: Pane, q: Pane) {
    PaneInv(q) && (q.posted == p.posted || q.posted == p.posted + [Snapshot(ser, q)])
  }

  lemma EditorKeepsPaneInv(ser: Serialize, p: Pane, e: Event)
    requires PaneInv(p)
    ensures PaneStepOk(ser, p, PaneStep(ser, p, e))
    ensures Attempts(ser, p, e) ==> Synced(ser, PaneStep(ser, p, e))
  {
    if p.mounted {
      match e
      case Frame => FrameKeepsPaneInv(ser, p);
      case Load => PostKeepsInv(ser, p.(ready := true));
      case Receive(Ready) => PostKeepsInv(ser, p.(ready := true));
      case Receive(EditStart(path)) => StartKeepsPaneInv(ser, p, path);
      case Receive(EditEnd(path)) => EndKeepsPaneInv(ser, p, path);
      case Receive(Callback) =>
      case Render(_) =>
      case RunEffects =>
      case Unmount =>
    }
  }

  lemma FrameKeepsPaneInv(ser: Serialize, p: Pane)
    requires PaneInv(p) && p.mounted
    ensures PaneStepOk(ser, p, PaneStep(ser, p, Frame))
    ensures Attempts(ser, p, Frame) ==> Synced(ser, PaneStep(ser, p, Frame))
  {
    if p.frames > 0 { PostKeepsInv(ser, p.(raf := false, frames := p.frames - 1)); }
  }

  lemma StartKeepsPaneInv(ser: Serialize, p: Pane, path: string)
    requires PaneInv(p) && p.mounted
    ensures PaneStepOk(ser, p, PaneStep(ser, p, Receive(EditStart(path))))
  {
    assert |p.editing + {path}| <= |p.editing| + 1;
  }

  lemma EndKeepsPaneInv(ser: Serialize, p: Pane, path: string)
    requires PaneInv(p) && p.mounted
    ensures var q := PaneStep(ser, p, Receive(EditEnd(path)));
      PaneStepOk(ser, p, q) && (q.editing == {} ==> Synced(ser, q))
  {
    var q := p.(editing := p.editing - {path});
    assert PaneInv(q) by { assert |q.editing| <= |p.editing|; }
    if q.editing == {} { PostKeepsInv(ser, q); }
  }

  /** The component's refs, updated event by event. */
  class LivePreview {
    const ser: Serialize
    var form: Form
    var effectQueued: bool
    var ready: bool
    var raf: bool
    var frames: nat
    var lastSent: Option<string>
    var editing: set<string>
    var posted: seq<string>
    var mounted: bool

    constructor (ser: Serialize, form: Form)
      ensures this.ser == ser
      ensures Valid() && State() == Pane(form, true, false, false, 0, None, {}, [], true)
    {
      this.ser, this.form, effectQueued, ready, raf, frames := ser, form, true, false, false, 0;
      lastSent, editing, posted, mounted := None, {}, [], true;
    }

    ghost function State(): Pane
      reads this
    {
      Pane(form, effectQueued, ready, raf, frames, lastSent, editing, posted, mounted)
    }

    ghost predicate Valid()
      reads this
    {
      PaneInv(State())
    }

    /** Post the current snapshot unless an edit is in progress in the frame or
        the frame was sent exactly this already. */
    method PostNow()
      modifies this`lastSent, this`posted
      ensures State() == Post(ser, old(State()))
    {
      if |editing| > 0 { return; }
      var data := Strip(Obj(form));
      var payload := ser(data);
      if Some(payload) == lastSent { return; }
      lastSent := Some(payload);
      posted := posted + [payload];
    }

    method RequestFrame()
      modifies this`raf, this`frames
      ensures State() == if old(raf) then old(State()) else old(State()).(raf := true, frames := old(frames) + 1)
    {
      if raf { return; }
      frames := frames + 1;
      raf := true;
    }

    method OnFrame()
      requires Valid() && mounted
      modifies this
      ensures Valid() && State() == PaneStep(ser, old(State()), Frame)
    {
      EditorKeepsPaneInv(ser, State(), Frame);
      if frames == 0 { return; }
      frames := frames - 1;
      raf := false;
      if ready { PostNow(); }
    }

    method OnMessage(msg: Message)
      requires Valid() && mounted
      modifies this
      ensures Valid() && State() == PaneStep(ser, old(State()), Receive(msg))
    {
      EditorKeepsPaneInv(ser, State(), Receive(msg));
      match msg
      case Ready =>
        ready := true;
        PostNow();
      case EditStart(path) => StartEdit(path);
      case EditEnd(path) => EndEdit(path);
      case Callback =>
    }

    method StartEdit(path: string)
      requires mounted
      modifies this`editing
      ensures State() == PaneStep(ser, old(State()), Receive(EditStart(path)))
    {
      if |editing| >= MAX_CONCURRENT_EDITS { editing := {}; } else { editing := editing + {path}; }
    }

    method EndEdit(path: string)
      requires mounted
      modifies this`editing, this`lastSent, this`posted
      ensures State() == PaneStep(ser, old(State()), Receive(EditEnd(path)))
    {
      editing := editing - {path};
      if |editing| == 0 { PostNow(); }
    }

    method OnRender(next: Form)
      requires Valid() && mounted
      modifies this
      ensures Valid() && State() == PaneStep(ser, old(State()), Render(next))
    {
      EditorKeepsPaneInv(ser, State(), Render(next));
      form := next;
      effectQueued := true;
    }

    method OnEffects()
      requires Valid() && mounted
      modifies this
      ensures Valid() && State() == PaneStep(ser, old(State()), RunEffects)
    {
      EditorKeepsPaneInv(ser, State(), RunEffects);
      if effectQueued && ready { RequestFrame(); }
      effectQueued := false;
    }

    method OnLoad()
      requires Valid() && mounted
      modifies this
      ensures Valid() && State() == PaneStep(ser, old(State()), Load)
    {
      EditorKeepsPaneInv(ser, State(), Load);
      ready := true;
      PostNow();
    }

    method OnUnmount()
      requires Valid() && mounted
      modifies this
      ensures Valid() && State() == PaneStep(ser, old(State()), Unmount)
    {
      EditorKeepsPaneInv(ser, State(), Unmount);
      if raf && frames > 0 { frames := frames - 1; }
      effectQueued := false;
      mounted := false;
    }
  }
}
