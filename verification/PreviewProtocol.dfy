/** Editor and preview joined by two FIFO channels, and what every run of the
    pair guarantees. */
module PreviewProtocol {
  import opened Decimals
  import opened Forms
  import opened RowKeys
  import opened LivePreview

  datatype Action =
    | Editor(e: Event)         // any editor event but a message
    | EditorReceives           // the oldest message from the frame arrives
    | PreviewMounts            // the preview attaches its listener and announces itself
    | PreviewSends(msg: Message)
    | PreviewReceives          // the oldest snapshot reaches the frame
    | FrameReloads             // a fresh document: no listener, nothing shown, channel gone

  /** `at` are the positions in `posted` of the snapshots applied so far. Two
      facts of the past are remembered. `stale`: the overflow branch emptied the
      editing set while something was unsent, and no unsuppressed send has been
      attempted since. `lossy`: the latest snapshot reached a frame that was not
      listening, or the frame has reloaded since it was posted. */
  datatype System = System(
    pane: Pane, up: seq<Message>, down: seq<string>,
    listening: bool, shown: Option<string>, at: seq<nat>,
    stale: bool, lossy: bool)

  function Start(form: Form): System {
    System(Pane(form, true, false, false, 0, None, {}, [], true), [], [], false, None, [], false, false)
  }

  /** The pane moves on; what it has posted meanwhile is in flight. */
  function Sent(s: System, q: Pane, stale: bool): System {
    var n := |s.pane.posted|;
    var news := if n <= |q.posted| then q.posted[n..] else [];
    s.(pane := q, down := s.down + news, lossy := s.lossy && news == [], stale := stale)
  }

  function EditorDoes(ser: Serialize, s: System, e: Event): System {
    var p := s.pane;
    Sent(s, PaneStep(ser, p, e), if Overflows(p, e) then !Synced(ser, p) else s.stale && !Attempts(ser, p, e))
  }

  function Step(ser: Serialize, s: System, a: Action): System {
    match a
    case Editor(e) => if e.Receive? then s else EditorDoes(ser, s, e)
    case EditorReceives =>
      if s.up == [] then s else EditorDoes(ser, s.(up := s.up[1..]), Receive(s.up[0]))
    case PreviewMounts => s.(listening := true, up := s.up + [Ready])
    case PreviewSends(msg) => s.(up := s.up + [msg])
    case PreviewReceives =>
      if s.down == [] then s
      else if s.listening then
        s.(down := s.down[1..], shown := Some(s.down[0]), at := s.at + [FirstInFlight(s)])
      else s.(down := s.down[1..], lossy := s.lossy || |s.down| == 1)
    case FrameReloads => s.(down := [], listening := false, shown := None, lossy := s.pane.lastSent.Some?)
  }

  /** Position in `posted` of the oldest snapshot still in flight. */
  function FirstInFlight(s: System): nat {
    if |s.down| <= |s.pane.posted| then |s.pane.posted| - |s.down| else 0
  }

  function Run(ser: Serialize, s: System, run: seq<Action>): System
    decreases |run|
  {
    if run == [] then s else Run(ser, Step(ser, s, run[0]), run[1..])
  }

  /** Nothing left to do on the editor side. */
  predicate Idle(s: System) {
    s.pane.mounted && s.pane.ready && !s.pane.effect && s.pane.frames == 0 && s.pane.editing == {}
  }

  /** What is in flight is the tail of what was posted; what was applied is an
      increasing selection of the rest; the frame shows the last applied. */
  predicate ChannelInv(s: System) {
    && |s.down| <= |s.pane.posted| && s.down == s.pane.posted[FirstInFlight(s)..]
    && (forall i | 0 <= i < |s.at| :: s.at[i] < FirstInFlight(s))
    && (forall i, j | 0 <= i < j < |s.at| :: s.at[i] < s.at[j])
    && (s.shown.Some? ==> s.listening && s.at != [] && s.shown.value == s.pane.posted[s.at[|s.at| - 1]])
    && (s.down != [] ==> !s.lossy)
    && (s.down == [] && s.pane.lastSent.Some? ==> (s.shown == s.pane.lastSent <==> !s.lossy))
  }

  predicate Inv(ser: Serialize, s: System) {
    && PaneInv(s.pane)
    && (Idle(s) ==> (Synced(ser, s.pane) <==> !s.stale))
    && ChannelInv(s)
  }

  /** Only these events can make an editor idle that was not: the ones that
      attempt a send, and the overflow reset. */
  lemma BecomesIdle(ser: Serialize, p: Pane, e: Event)
    requires PaneInv(p)
    ensures var q := PaneStep(ser, p, e);
      q.mounted && q.ready && !q.effect && q.frames == 0 && q.editing == {} && !Attempts(ser, p, e) && !Overflows(p, e) ==>
        q == p
  {
  }

  /** Posting `x`: it joins the tail in flight, and nothing is lost for now. */
  lemma PostedJoinsChannel(s: System, q: Pane, x: string, stale: bool)
    requires PaneInv(s.pane) && ChannelInv(s) && PaneInv(q) && q.posted == s.pane.posted + [x]
    ensures ChannelInv(s.(pane := q, down := s.down + [x], lossy := false, stale := stale))
  {
    var t := s.(pane := q, down := s.down + [x], lossy := false, stale := stale);
    var f := FirstInFlight(s);
    assert FirstInFlight(t) == f;
    assert q.posted[f..] == s.pane.posted[f..] + [x];
  }

  lemma OtherPane(s: System, q: Pane, stale: bool)
    requires ChannelInv(s) && q.posted == s.pane.posted && q.lastSent == s.pane.lastSent
    ensures ChannelInv(s.(pane := q, stale := stale))
  {
  }

  /** An event that posts nothing only changes the pane (and perhaps `stale`). */
  lemma NoPost(ser: Serialize, s: System, e: Event)
    requires PaneStep(ser, s.pane, e).posted == s.pane.posted
    ensures EditorDoes(ser, s, e) == s.(pane := PaneStep(ser, s.pane, e), stale := EditorDoes(ser, s, e).stale)
  {
    var p := s.pane.posted;
    assert p[|p|..] == [] && s.down + [] == s.down;
  }

  lemma OnePost(ser: Serialize, s: System, e: Event, x: string)
    requires PaneStep(ser, s.pane, e).posted == s.pane.posted + [x]
    ensures EditorDoes(ser, s, e)
         == s.(pane := PaneStep(ser, s.pane, e), down := s.down + [x], lossy := false, stale := EditorDoes(ser, s, e).stale)
  {
    var p := s.pane.posted;
    assert (p + [x])[|p|..] == [x];
  }

  /** However the pane moved, as long as it posted nothing or its own snapshot. */
  lemma SentKeepsChannelInv(ser: Serialize, s: System, q: Pane, stale: bool)
    requires PaneInv(s.pane) && ChannelInv(s) && PaneStepOk(ser, s.pane, q)
    ensures ChannelInv(Sent(s, q, stale))
  {
    var p := s.pane.posted;
    if q.posted == p {
      assert p[|p|..] == [] && s.down + [] == s.down;
      OtherPane(s, q, stale);
    } else {
      assert q.posted[|p|..] == [Snapshot(ser, q)];
      PostedJoinsChannel(s, q, Snapshot(ser, q), stale);
    }
  }

  lemma EditorKeepsInv(ser: Serialize, s: System, e: Event)
    requires Inv(ser, s)
    ensures Inv(ser, EditorDoes(ser, s, e))
  {
    EditorKeepsPaneInv(ser, s.pane, e);
    SentKeepsChannelInv(ser, s, PaneStep(ser, s.pane, e), EditorDoes(ser, s, e).stale);
    BecomesIdle(ser, s.pane, e);
  }

  lemma ReceiptKeepsInv(ser: Serialize, s: System)
    requires Inv(ser, s) && s.down != []
    ensures Inv(ser, Step(ser, s, PreviewReceives))
  {
    var t := Step(ser, s, PreviewReceives);
    var f := FirstInFlight(s);
    assert FirstInFlight(t) == f + 1;
    assert s.pane.posted[f..][0] == s.pane.posted[f] && s.pane.posted[f..][1..] == s.pane.posted[f + 1..];
    assert ChannelInv(t);
  }

  lemma ReloadKeepsInv(ser: Serialize, s: System)
    requires Inv(ser, s)
    ensures Inv(ser, Step(ser, s, FrameReloads))
  {
    var t := Step(ser, s, FrameReloads);
    assert FirstInFlight(t) == |s.pane.posted| >= FirstInFlight(s);
    assert s.pane.posted[|s.pane.posted|..] == [];
  }

  lemma StepKeepsInv(ser: Serialize, s: System, a: Action)
    requires Inv(ser, s)
    ensures Inv(ser, Step(ser, s, a))
  {
    match a
    case Editor(e) => if !e.Receive? { EditorKeepsInv(ser, s, e); }
    case EditorReceives => if s.up != [] { EditorKeepsInv(ser, s.(up := s.up[1..]), Receive(s.up[0])); }
    case PreviewReceives => if s.down != [] { ReceiptKeepsInv(ser, s); }
    case FrameReloads => ReloadKeepsInv(ser, s);
    case PreviewMounts => SendingKeepsInv(ser, s, true, Ready);
    case PreviewSends(msg) => SendingKeepsInv(ser, s, s.listening, msg);
  }

  lemma SendingKeepsInv(ser: Serialize, s: System, listening: bool, msg: Message)
    requires Inv(ser, s) && (s.listening ==> listening)
    ensures Inv(ser, s.(listening := listening, up := s.up + [msg]))
  {
  }

  lemma {:induction false} RunKeepsInv(ser: Serialize, s: System, run: seq<Action>)
    requires Inv(ser, s)
    ensures Inv(ser, Run(ser, s, run))
    decreases |run|
  {
    if run != [] {
      StepKeepsInv(ser, s, run[0]);
      RunKeepsInv(ser, Step(ser, s, run[0]), run[1..]);
    }
  }

  lemma StartInv(ser: Serialize, form: Form)
    ensures Inv(ser, Start(form))
  {
  }

  // --- Convergence ------------------------------------------------------------------

  /** In every reachable mounted, ready state the last send is the current form, or
      an effect or a frame is pending, or an edit is in progress in the preview, or
      the overflow reset left something unsent; and at most one frame is pending
      and at most 16 edits are tracked. */
  lemma Converges(ser: Serialize, form: Form, run: seq<Action>)
    ensures var s := Run(ser, Start(form), run);
      && (s.pane.mounted && s.pane.ready ==>
            Synced(ser, s.pane) || s.pane.effect || s.pane.raf || s.pane.editing != {} || s.stale)
      && s.pane.frames <= 1 && |s.pane.editing| <= 16
  {
    StartInv(ser, form);
    RunKeepsInv(ser, Start(form), run);
  }

  /** An idle editor with an empty channel shows the current form in the frame
      exactly when the overflow reset left nothing unsent and the latest snapshot
      was delivered to a listening frame that has not reloaded since. */
  lemma IdleShowsForm(ser: Serialize, form: Form, run: seq<Action>)
    ensures var s := Run(ser, Start(form), run);
      Idle(s) && s.down == [] && s.pane.lastSent.Some? ==>
        && (Synced(ser, s.pane) <==> !s.stale)
        && (s.shown == s.pane.lastSent <==> !s.lossy)
        && (!s.stale ==> (s.shown == Some(Snapshot(ser, s.pane)) <==> !s.lossy))
  {
    StartInv(ser, form);
    RunKeepsInv(ser, Start(form), run);
  }

  /** Whatever went wrong before, the next edit is sent: after a new form, its
      effect and one frame, the last send is that form (unless an edit is running
      in the preview). */
  lemma NextEditIsSent(ser: Serialize, form: Form, run: seq<Action>, next: Form)
    ensures var s := Run(ser, Start(form), run);
      s.pane.mounted && s.pane.ready && s.pane.editing == {} ==>
        var t := Run(ser, s, [Editor(Render(next)), Editor(RunEffects), Editor(Frame)]);
        Synced(ser, t.pane) && t.pane.form == next && Idle(t) && !t.stale
  {
    StartInv(ser, form);
    RunKeepsInv(ser, Start(form), run);
    var s := Run(ser, Start(form), run);
    if s.pane.mounted && s.pane.ready && s.pane.editing == {} { ThreeSteps(ser, s, next); }
  }

  lemma PaneThreeSteps(ser: Serialize, p: Pane, next: Form)
    requires PaneInv(p) && p.mounted && p.ready && p.editing == {}
    ensures var q := PaneStep(ser, PaneStep(ser, p, Render(next)), RunEffects);
      var r := PaneStep(ser, q, Frame);
      Attempts(ser, q, Frame) && Synced(ser, r) && r.form == next
      && r.mounted && r.ready && !r.effect && r.frames == 0 && r.editing == {}
  {
    var q := PaneStep(ser, PaneStep(ser, p, Render(next)), RunEffects);
    assert q == p.(form := next, effect := false, raf := true, frames := 1);
    PostKeepsInv(ser, q.(raf := false, frames := 0));
  }

  lemma ThreeSteps(ser: Serialize, s: System, next: Form)
    requires Inv(ser, s) && s.pane.mounted && s.pane.ready && s.pane.editing == {}
    ensures var t := Run(ser, s, [Editor(Render(next)), Editor(RunEffects), Editor(Frame)]);
      Synced(ser, t.pane) && t.pane.form == next && Idle(t) && !t.stale
  {
    var a, b, c := Editor(Render(next)), Editor(RunEffects), Editor(Frame);
    var s1 := EditorDoes(ser, s, Render(next));
    var s2 := EditorDoes(ser, s1, RunEffects);
    RunOne(ser, s, a, [b, c]);
    RunOne(ser, s1, b, [c]);
    RunOne(ser, s2, c, []);
    PaneThreeSteps(ser, s.pane, next);
  }

  // --- Messages -----------------------------------------------------------------------

  /** The snapshots the frame applies are an ordered selection of those posted,
      none twice; consecutive posts differ; the frame shows the last applied. */
  lemma AppliedInOrder(ser: Serialize, form: Form, run: seq<Action>)
    ensures var s := Run(ser, Start(form), run);
      && (forall i | 0 <= i < |s.at| :: s.at[i] < |s.pane.posted|)
      && (forall i, j | 0 <= i < j < |s.at| :: s.at[i] < s.at[j])
      && (forall i | 0 <= i < |s.pane.posted| - 1 :: s.pane.posted[i] != s.pane.posted[i + 1])
      && (s.shown.Some? ==> s.at != [] && s.shown.value == s.pane.posted[s.at[|s.at| - 1]])
  {
    StartInv(ser, form);
    RunKeepsInv(ser, Start(form), run);
  }

  /** This step ends the edit of `path`, or resets all edits. */
  predicate Releases(s: System, a: Action, path: string) {
    a.EditorReceives? && s.up != [] && (s.up[0] == EditEnd(path) || Overflows(s.pane, Receive(s.up[0])))
  }

  predicate NeverReleases(ser: Serialize, s: System, run: seq<Action>, path: string)
    decreases |run|
  {
    run != [] ==> !Releases(s, run[0], path) && NeverReleases(ser, Step(ser, s, run[0]), run[1..], path)
  }

  /** While an edit of `path` is in progress nothing is posted at all. */
  lemma {:induction false} SilentWhileEditing(ser: Serialize, s: System, run: seq<Action>, path: string)
    requires path in s.pane.editing && NeverReleases(ser, s, run, path)
    ensures var t := Run(ser, s, run); path in t.pane.editing && t.pane.posted == s.pane.posted
    decreases |run|
  {
    if run != [] {
      SilentStep(ser, s, run[0], path);
      SilentWhileEditing(ser, Step(ser, s, run[0]), run[1..], path);
    }
  }

  lemma SilentStep(ser: Serialize, s: System, a: Action, path: string)
    requires path in s.pane.editing && !Releases(s, a, path)
    ensures var t := Step(ser, s, a); path in t.pane.editing && t.pane.posted == s.pane.posted
  {
    match a
    case Editor(_) =>
    case EditorReceives => if s.up != [] && s.up[0].EditEnd? { assert path in s.pane.editing - {s.up[0].path}; }
    case _ =>
  }

  lemma {:induction false} UnmountedStays(ser: Serialize, s: System, run: seq<Action>)
    requires !s.pane.mounted
    ensures Run(ser, s, run).pane == s.pane
    decreases |run|
  {
    if run != [] { UnmountedStays(ser, Step(ser, s, run[0]), run[1..]); }
  }

  /** Unmounting cancels the pending frame: nothing is posted from then on. */
  lemma SilentAfterUnmount(ser: Serialize, form: Form, run: seq<Action>, more: seq<Action>)
    requires !Run(ser, Start(form), run).pane.mounted
    ensures var s := Run(ser, Start(form), run);
      s.pane.frames == 0 && Run(ser, s, more).pane == s.pane
  {
    StartInv(ser, form);
    RunKeepsInv(ser, Start(form), run);
    UnmountedStays(ser, Run(ser, Start(form), run), more);
  }

  // --- What each message does ------------------------------------------------------------

  lemma Received(ser: Serialize, s: System, msg: Message)
    requires s.up == []
    ensures var t := Run(ser, s, [PreviewSends(msg), EditorReceives]);
      t.pane == PaneStep(ser, s.pane, Receive(msg)) && t.up == []
  {
    var u := Step(ser, s, PreviewSends(msg));
    RunOne(ser, s, PreviewSends(msg), [EditorReceives]);
    RunOne(ser, u, EditorReceives, []);
    assert u.up == [msg] && u.up[1..] == [];
  }

  /** An edit-start adds its path, and posts nothing; but with 16 paths already there
      every one is dropped. */
  lemma EditStartTaken(ser: Serialize, s: System, path: string)
    requires s.pane.mounted && s.up == []
    ensures var t := Run(ser, s, [PreviewSends(EditStart(path)), EditorReceives]);
      t.up == [] && t.pane == s.pane.(editing := if |s.pane.editing| >= 16 then {} else s.pane.editing + {path})
  {
    Received(ser, s, EditStart(path));
  }

  /** An edit-end ends the edit of its path; when no other is left the current form is
      the last send, and otherwise nothing is posted. */
  lemma EditEndTaken(ser: Serialize, s: System, path: string)
    requires s.pane.mounted && s.up == []
    ensures var t := Run(ser, s, [PreviewSends(EditEnd(path)), EditorReceives]);
      && t.up == [] && t.pane.mounted && t.pane.form == s.pane.form
      && t.pane.editing == s.pane.editing - {path}
      && (if t.pane.editing == {} then t.pane.lastSent == Some(ser(Strip(Obj(s.pane.form)))) else t.pane.posted == s.pane.posted)
  {
    Received(ser, s, EditEnd(path));
  }

  /** The announcement makes the editor ready and, unless an edit is running, the
      current form the last send. So does the `load` event. */
  lemma ReadyTaken(ser: Serialize, s: System)
    requires s.pane.mounted && s.up == []
    ensures var t, u := Run(ser, s, [PreviewSends(Ready), EditorReceives]), Run(ser, s, [Editor(Load)]);
      && t.pane == u.pane && t.pane.ready && t.pane.form == s.pane.form && t.pane.editing == s.pane.editing
      && (if s.pane.editing == {} then t.pane.lastSent == Some(ser(Strip(Obj(s.pane.form)))) else t.pane.posted == s.pane.posted)
  {
    Received(ser, s, Ready);
    RunOne(ser, s, Editor(Load), []);
  }

  /** Select, hover and patch messages leave the pane alone; what they change comes back
      as a new form. */
  lemma CallbackTaken(ser: Serialize, s: System)
    requires s.up == []
    ensures Run(ser, s, [PreviewSends(Callback), EditorReceives]).pane == s.pane
  {
    Received(ser, s, Callback);
  }

  /** The effect of a new form, and nothing else, requests a frame when the editor is
      ready and none is pending; the frame, and nothing else, posts, unless an edit is
      running. */
  lemma FrameTaken(ser: Serialize, s: System)
    requires Inv(ser, s) && s.pane.mounted
    ensures var held := s.pane.raf || (s.pane.effect && s.pane.ready);
      Run(ser, s, [Editor(RunEffects)]).pane == s.pane.(effect := false, raf := held, frames := if held then 1 else 0)
    ensures var u := Run(ser, s, [Editor(Frame)]);
      if s.pane.frames == 0 then u.pane == s.pane
      else
        && u.pane.frames == 0 && !u.pane.raf && u.pane.form == s.pane.form && u.pane.editing == s.pane.editing
        && (if s.pane.ready && s.pane.editing == {} then u.pane.lastSent == Some(ser(Strip(Obj(s.pane.form))))
            else u.pane.posted == s.pane.posted)
  {
    RunOne(ser, s, Editor(RunEffects), []);
    RunOne(ser, s, Editor(Frame), []);
  }

  /** Unmounting unmounts, and leaves no frame behind. */
  lemma UnmountTaken(ser: Serialize, s: System)
    requires Inv(ser, s)
    ensures var t := Run(ser, s, [Editor(Unmount)]);
      !t.pane.mounted && t.pane.frames == 0 && t.pane.posted == s.pane.posted && t.pane.form == s.pane.form
  {
    RunOne(ser, s, Editor(Unmount), []);
  }

  /** The form last rendered in a run. */
  function LastForm(form: Form, run: seq<Action>): Form
    decreases |run|
  {
    if run == [] then form
    else LastForm(if run[0].Editor? && run[0].e.Render? then run[0].e.form else form, run[1..])
  }

  /** While mounted the pane holds the form last rendered, whatever else happens. */
  lemma {:induction false} HoldsLastForm(ser: Serialize, s: System, run: seq<Action>)
    requires Run(ser, s, run).pane.mounted
    ensures Run(ser, s, run).pane.form == LastForm(s.pane.form, run) && s.pane.mounted
    decreases |run|
  {
    if run != [] {
      HoldsLastForm(ser, Step(ser, s, run[0]), run[1..]);
      StepForm(ser, s, run[0]);
    }
  }

  lemma StepForm(ser: Serialize, s: System, a: Action)
    requires Step(ser, s, a).pane.mounted
    ensures s.pane.mounted
    ensures Step(ser, s, a).pane.form == if a.Editor? && a.e.Render? then a.e.form else s.pane.form
  {
    match a
    case Editor(e) => PaneForm(ser, s.pane, e);
    case EditorReceives => if s.up != [] { PaneForm(ser, s.pane, Receive(s.up[0])); }
    case _ =>
  }

  lemma PaneForm(ser: Serialize, p: Pane, e: Event)
    requires PaneStep(ser, p, e).mounted
    ensures p.mounted && PaneStep(ser, p, e).form == if e.Render? then e.form else p.form
  {
  }

  /** Nothing reaches the editor and nothing unmounts it. */
  predicate Undisturbed(run: seq<Action>) {
    forall i | 0 <= i < |run| ::
      run[i] == Editor(RunEffects) || run[i] == Editor(Frame) || run[i] == Editor(Load) || run[i] == PreviewReceives
      || (run[i].Editor? && run[i].e.Render?)
  }

  lemma {:induction false} StaysEditing(ser: Serialize, s: System, run: seq<Action>)
    requires s.pane.mounted && s.up == [] && Undisturbed(run)
    ensures var t := Run(ser, s, run); t.pane.mounted && t.up == [] && t.pane.editing == s.pane.editing
    decreases |run|
  {
    if run != [] {
      assert Undisturbed(run[1..]) by { assert forall i | 0 <= i < |run[1..]| :: run[1..][i] == run[i + 1]; }
      StaysEditing(ser, Step(ser, s, run[0]), run[1..]);
    }
  }

  /** A whole inline edit: from the start of an edit to its end nothing is posted,
      whatever is rendered meanwhile, and then the form rendered last is the last send. */
  lemma EditRoundSends(ser: Serialize, s: System, path: string, during: seq<Action>)
    requires s.pane.mounted && s.up == [] && s.pane.editing == {} && Undisturbed(during)
    ensures var a := Run(ser, s, [PreviewSends(EditStart(path)), EditorReceives]);
      var b := Run(ser, a, during);
      var c := Run(ser, b, [PreviewSends(EditEnd(path)), EditorReceives]);
      && b.pane.posted == s.pane.posted
      && c.pane.editing == {} && c.pane.form == LastForm(s.pane.form, during)
      && c.pane.lastSent == Some(ser(Strip(Obj(LastForm(s.pane.form, during)))))
  {
    EditStartTaken(ser, s, path);
    var a := Run(ser, s, [PreviewSends(EditStart(path)), EditorReceives]);
    StaysEditing(ser, a, during);
    HoldsLastForm(ser, a, during);
    NoRelease(ser, a, during, path);
    SilentWhileEditing(ser, a, during, path);
    EditEndTaken(ser, Run(ser, a, during), path);
  }

  lemma {:induction false} NoRelease(ser: Serialize, s: System, run: seq<Action>, path: string)
    requires Undisturbed(run)
    ensures NeverReleases(ser, s, run, path)
    decreases |run|
  {
    if run != [] {
      assert Undisturbed(run[1..]) by { assert forall i | 0 <= i < |run[1..]| :: run[1..][i] == run[i + 1]; }
      NoRelease(ser, Step(ser, s, run[0]), run[1..], path);
    }
  }

  /** Nothing was posted yet, and nothing under way will make the editor ready. */
  predicate Waiting(s: System) {
    !s.pane.ready && s.pane.posted == [] && forall i | 0 <= i < |s.up| :: s.up[i] == Callback
  }

  lemma WaitingStep(ser: Serialize, s: System, a: Action)
    requires Waiting(s) && a != Editor(Load) && a != PreviewMounts && (a.PreviewSends? ==> a.msg == Callback)
    ensures Waiting(Step(ser, s, a))
  {
    match a
    case EditorReceives => if s.up != [] { assert PaneStep(ser, s.pane, Receive(s.up[0])) == s.pane; }
    case _ =>
  }

  /** Before the frame loads or announces itself, and starts or ends no edit, nothing is
      posted. */
  lemma {:induction false} SilentUntilReady(ser: Serialize, s: System, run: seq<Action>)
    requires Waiting(s)
    requires forall i | 0 <= i < |run| :: run[i] != Editor(Load) && run[i] != PreviewMounts && (run[i].PreviewSends? ==> run[i].msg == Callback)
    ensures Run(ser, s, run).pane.posted == [] && !Run(ser, s, run).pane.ready
    decreases |run|
  {
    if run != [] {
      WaitingStep(ser, s, run[0]);
      assert forall i | 0 <= i < |run[1..]| :: run[1..][i] == run[i + 1];
      SilentUntilReady(ser, Step(ser, s, run[0]), run[1..]);
    }
  }

  // --- When nothing is stale and nothing is lost -----------------------------------------

  predicate NeverOverflows(ser: Serialize, s: System, run: seq<Action>)
    decreases |run|
  {
    run != [] ==>
      && !(run[0].EditorReceives? && s.up != [] && Overflows(s.pane, Receive(s.up[0])))
      && NeverOverflows(ser, Step(ser, s, run[0]), run[1..])
  }

  lemma {:induction false} NoOverflowNotStale(ser: Serialize, s: System, run: seq<Action>)
    requires !s.stale && NeverOverflows(ser, s, run)
    ensures !Run(ser, s, run).stale
    decreases |run|
  {
    if run != [] { NoOverflowNotStale(ser, Step(ser, s, run[0]), run[1..]); }
  }

  lemma {:induction false} ListeningNotLossy(ser: Serialize, s: System, run: seq<Action>)
    requires s.listening && !s.lossy && FrameReloads !in run
    ensures var t := Run(ser, s, run); t.listening && !t.lossy
    decreases |run|
  {
    if run != [] { ListeningNotLossy(ser, Step(ser, s, run[0]), run[1..]); }
  }

  lemma {:induction false} RunAppend(ser: Serialize, s: System, a: seq<Action>, b: seq<Action>)
    ensures Run(ser, s, a + b) == Run(ser, Run(ser, s, a), b)
    decreases |a|
  {
    if a == [] {
      assert a + b == b;
    } else {
      assert (a + b)[1..] == a[1..] + b;
      RunAppend(ser, Step(ser, s, a[0]), a[1..], b);
    }
  }

  /** If the frame listens before anything is posted and never reloads, and edits
      never overflow, an idle editor with an empty channel is showing its form. */
  lemma ListenFirstShowsForm(ser: Serialize, form: Form, before: seq<Action>, after: seq<Action>)
    requires Run(ser, Start(form), before).pane.posted == [] && FrameReloads !in after
    requires NeverOverflows(ser, Start(form), before + [PreviewMounts] + after)
    ensures var s := Run(ser, Start(form), before + [PreviewMounts] + after);
      Idle(s) && s.down == [] ==> s.shown == Some(Snapshot(ser, s.pane))
  {
    var s0 := Run(ser, Start(form), before);
    var s1 := Step(ser, s0, PreviewMounts);
    var s := Run(ser, Start(form), before + [PreviewMounts] + after);
    assert before + [PreviewMounts] + after == before + ([PreviewMounts] + after);
    RunAppend(ser, Start(form), before, [PreviewMounts] + after);
    assert ([PreviewMounts] + after)[1..] == after;
    assert s == Run(ser, s1, after);
    StartInv(ser, form);
    RunKeepsInv(ser, Start(form), before);
    NothingPostedNotLossy(ser, form, before);
    ListeningNotLossy(ser, s1, after);
    NoOverflowNotStale(ser, Start(form), before + [PreviewMounts] + after);
    RunKeepsInv(ser, Start(form), before + [PreviewMounts] + after);
  }

  lemma {:induction false} NothingPostedNotLossy(ser: Serialize, form: Form, run: seq<Action>)
    requires Run(ser, Start(form), run).pane.posted == []
    ensures !Run(ser, Start(form), run).lossy
    decreases |run|
  {
    if run != [] {
      var head := run[..|run| - 1];
      var last := run[|run| - 1];
      assert run == head + [last];
      RunAppend(ser, Start(form), head, [last]);
      StartInv(ser, form);
      RunKeepsInv(ser, Start(form), head);
      var s := Run(ser, Start(form), head);
      assert [last][1..] == [];
      assert Run(ser, s, [last]) == Step(ser, s, last);
      PostedGrows(ser, s, last);
      NothingPostedNotLossy(ser, form, head);
    }
  }

  lemma PostedGrows(ser: Serialize, s: System, a: Action)
    requires Inv(ser, s)
    ensures s.pane.posted <= Step(ser, s, a).pane.posted
  {
    match a
    case Editor(e) => EditorKeepsPaneInv(ser, s.pane, e);
    case EditorReceives => if s.up != [] { EditorKeepsPaneInv(ser, s.pane, Receive(s.up[0])); }
    case _ =>
  }

  // --- The two failures do happen -----------------------------------------------------------

  /** The iframe's `load` event posts before the page has attached its listener;
      the snapshot is lost, and when the page announces itself the dedupe
      suppresses the answer: the editor is idle and in sync, the frame blank. */
  lemma LoadBeforeListenStaysBlank(ser: Serialize, form: Form)
    ensures var s := Run(ser, Start(form),
        [Editor(RunEffects), Editor(Load), PreviewReceives, PreviewMounts, EditorReceives]);
      Idle(s) && s.down == [] && s.up == [] && Synced(ser, s.pane) && s.listening && s.shown == None && s.lossy
  {
    var x := ser(Strip(Obj(form)));
    var s2 := LoadPosts(ser, form);
    RunAppend(ser, Start(form), [Editor(RunEffects), Editor(Load)], [PreviewReceives, PreviewMounts, EditorReceives]);
    assert [Editor(RunEffects), Editor(Load)] + [PreviewReceives, PreviewMounts, EditorReceives]
        == [Editor(RunEffects), Editor(Load), PreviewReceives, PreviewMounts, EditorReceives];
    RunOne(ser, s2, PreviewReceives, [PreviewMounts, EditorReceives]);
    AnnouncedInVain(ser, s2.(down := [], lossy := true));
  }

  lemma LoadPosts(ser: Serialize, form: Form) returns (s: System)
    ensures s == Run(ser, Start(form), [Editor(RunEffects), Editor(Load)])
    ensures var x := ser(Strip(Obj(form)));
      s == System(Pane(form, false, true, false, 0, Some(x), {}, [x], true), [], [x], false, None, [], false, false)
  {
    var x := ser(Strip(Obj(form)));
    var s1 := Start(form).(pane := Start(form).pane.(effect := false));
    NoPost(ser, Start(form), RunEffects);
    OnePost(ser, s1, Load, x);
    s := EditorDoes(ser, s1, Load);
    RunOne(ser, Start(form), Editor(RunEffects), [Editor(Load)]);
    RunOne(ser, s1, Editor(Load), []);
  }

  /** An announcement that arrives when the current form is the last send is not answered. */
  lemma AnnouncedInVain(ser: Serialize, s: System)
    requires s.pane.mounted && s.pane.ready && s.pane.editing == {} && s.up == [] && Synced(ser, s.pane)
    ensures Run(ser, s, [PreviewMounts, EditorReceives]) == s.(listening := true, stale := false)
  {
    var t := s.(listening := true, up := [Ready]);
    assert t.up[1..] == [] && s.up + [Ready] == t.up;
    NoPost(ser, t.(up := []), Receive(Ready));
    RunOne(ser, s, PreviewMounts, [EditorReceives]);
    RunOne(ser, t, EditorReceives, []);
  }

  lemma RunOne(ser: Serialize, s: System, a: Action, rest: seq<Action>)
    ensures Run(ser, s, [a] + rest) == Run(ser, Step(ser, s, a), rest)
  {
    assert ([a] + rest)[1..] == rest;
  }

  /** `k` edit-starts of distinct paths, each received at once. */
  function EditStarts(k: nat): seq<Action> {
    if k == 0 then [] else EditStarts(k - 1) + [PreviewSends(EditStart(Dec(k - 1))), EditorReceives]
  }

  function Paths(k: nat): set<string> { if k == 0 then {} else Paths(k - 1) + {Dec(k - 1)} }

  lemma {:induction false} PathsCount(k: nat, j: nat)
    ensures |Paths(k)| == k && (j >= k ==> Dec(j) !in Paths(k))
  {
    if k > 0 {
      PathsCount(k - 1, k - 1);
      PathsCount(k - 1, j);
      if Dec(j) == Dec(k - 1) { DecInjective(j, k - 1); }
    }
  }

  lemma {:induction false} AfterEditStarts(ser: Serialize, s: System, k: nat)
    requires s.pane.mounted && s.up == [] && s.pane.editing == {} && !s.stale && k <= MAX_CONCURRENT_EDITS
    ensures Run(ser, s, EditStarts(k)) == s.(pane := s.pane.(editing := Paths(k)))
  {
    if k > 0 {
      AfterEditStarts(ser, s, k - 1);
      PathsCount(k - 1, k - 1);
      var path := Dec(k - 1);
      RunAppend(ser, s, EditStarts(k - 1), [PreviewSends(EditStart(path)), EditorReceives]);
      OneEditStart(ser, s.(pane := s.pane.(editing := Paths(k - 1))), path);
    }
  }

  lemma OneEditStart(ser: Serialize, s: System, path: string)
    requires s.pane.mounted && s.up == [] && !s.stale && |s.pane.editing| < MAX_CONCURRENT_EDITS
    ensures Run(ser, s, [PreviewSends(EditStart(path)), EditorReceives])
         == s.(pane := s.pane.(editing := s.pane.editing + {path}))
  {
    var u := Step(ser, s, PreviewSends(EditStart(path)));
    RunOne(ser, s, PreviewSends(EditStart(path)), [EditorReceives]);
    RunOne(ser, u, EditorReceives, []);
    assert u.up == [EditStart(path)] && u.up[1..] == [];
    NoPost(ser, u.(up := []), Receive(EditStart(path)));
  }

  /** A whole run into that state: the page listens and is sent `f`, sixteen edits
      start, the form becomes `g`, a seventeenth edit starts. The editor ends
      idle, showing `f`, with `g` never sent. */
  lemma OverflowRun(ser: Serialize, f: Form, g: Form)
    requires ser(Strip(Obj(f))) != ser(Strip(Obj(g)))
    ensures var s := Run(ser, Start(f),
        [Editor(RunEffects), PreviewMounts, EditorReceives, PreviewReceives] + EditStarts(16)
        + [Editor(Render(g)), Editor(RunEffects), Editor(Frame), PreviewSends(EditStart("x")), EditorReceives]);
      Idle(s) && s.down == [] && s.up == [] && s.pane.form == g && s.shown == Some(ser(Strip(Obj(f)))) && s.stale
  {
    var opening := [Editor(RunEffects), PreviewMounts, EditorReceives, PreviewReceives];
    var closing := [Editor(Render(g)), Editor(RunEffects), Editor(Frame), PreviewSends(EditStart("x")), EditorReceives];
    var starts := EditStarts(MAX_CONCURRENT_EDITS);
    assert opening + starts + closing == opening + (starts + closing);
    RunAppend(ser, Start(f), opening, starts + closing);
    var s := Opened(ser, f);
    assert Run(ser, Start(f), opening) == s;
    RunAppend(ser, s, starts, closing);
    AfterEditStarts(ser, s, MAX_CONCURRENT_EDITS);
    PathsCount(MAX_CONCURRENT_EDITS, 0);
    Overflowing(ser, s.(pane := s.pane.(editing := Paths(MAX_CONCURRENT_EDITS))), g);
  }

  lemma Opened(ser: Serialize, f: Form) returns (s: System)
    ensures s == Run(ser, Start(f), [Editor(RunEffects), PreviewMounts, EditorReceives, PreviewReceives])
    ensures var x := ser(Strip(Obj(f)));
      s == System(Pane(f, false, true, false, 0, Some(x), {}, [x], true), [], [], true, Some(x), [0], false, false)
  {
    var a, x := Editor(RunEffects), ser(Strip(Obj(f)));
    var s1 := Start(f).(pane := Start(f).pane.(effect := false));
    var s2 := s1.(listening := true, up := [Ready]);
    assert Step(ser, Start(f), a) == s1 by { NoPost(ser, Start(f), RunEffects); }
    assert Step(ser, s1, PreviewMounts) == s2 by { assert s1.up + [Ready] == [Ready]; }
    var s3 := AnsweredReady(ser, s2, x);
    s := s3.(down := [], shown := Some(x), at := [0]);
    assert Step(ser, s3, PreviewReceives) == s by { assert [x][1..] == [] && s3.at + [0] == [0]; }
    RunOne(ser, Start(f), a, [PreviewMounts, EditorReceives, PreviewReceives]);
    RunOne(ser, s1, PreviewMounts, [EditorReceives, PreviewReceives]);
    RunOne(ser, s2, EditorReceives, [PreviewReceives]);
    RunOne(ser, s3, PreviewReceives, []);
  }

  lemma AnsweredReady(ser: Serialize, s: System, x: string) returns (t: System)
    requires s.up == [Ready] && s.down == [] && s.pane.posted == [] && s.pane.lastSent == None && s.pane.mounted
    requires s.pane.editing == {} && !s.stale && x == Snapshot(ser, s.pane)
    ensures t == Step(ser, s, EditorReceives)
    ensures t == s.(pane := s.pane.(ready := true, lastSent := Some(x), posted := [x]), up := [], down := [x], lossy := false)
  {
    assert [Ready][1..] == [];
    OnePost(ser, s.(up := []), Receive(Ready), x);
    t := Step(ser, s, EditorReceives);
  }

  lemma Overflowing(ser: Serialize, s: System, g: Form)
    requires s.pane.mounted && s.pane.ready && !s.pane.raf && !s.pane.effect && s.pane.frames == 0 && s.up == [] && s.down == []
    requires |s.pane.editing| == MAX_CONCURRENT_EDITS && s.pane.lastSent.Some?
    requires s.pane.lastSent.value != ser(Strip(Obj(g)))
    ensures var t := Run(ser, s,
        [Editor(Render(g)), Editor(RunEffects), Editor(Frame), PreviewSends(EditStart("x")), EditorReceives]);
      Idle(t) && t.down == [] && t.up == [] && t.pane.form == g && t.shown == s.shown && t.stale
  {
    var a, b, c, d := Editor(Render(g)), Editor(RunEffects), Editor(Frame), PreviewSends(EditStart("x"));
    var s1 := Step(ser, s, a);
    NoPost(ser, s, Render(g));
    var s2 := Step(ser, s1, b);
    NoPost(ser, s1, RunEffects);
    var s3 := Step(ser, s2, c);
    NoPost(ser, s2, Frame);
    assert s3.pane == s.pane.(form := g);
    var s4 := Step(ser, s3, d);
    NoPost(ser, s4.(up := []), Receive(EditStart("x")));
    RunOne(ser, s, a, [b, c, d, EditorReceives]);
    RunOne(ser, s1, b, [c, d, EditorReceives]);
    RunOne(ser, s2, c, [d, EditorReceives]);
    RunOne(ser, s3, d, [EditorReceives]);
    RunOne(ser, s4, EditorReceives, []);
    assert s4.up == [EditStart("x")] && s4.up[1..] == [];
  }
}
