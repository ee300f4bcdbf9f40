/**
 The prompt cycle of the client over whole runs: which steps ask the
 application, and what happens to the arrays they allocate.
 */
module PromptCycle {
  import opened Prelude
  import opened Utf8
  import opened SaslFfi
  import opened SaslClient

  // ---------- who is asked for what ----------

  const ASK: Callback := NotRegistered(SASL_INTERACT)

  /** The values the application wants to be prompted for. */
  function Wants(app: App): set<nat> {
    (if app.user == ASK then {SASL_CB_USER} else {}) + (if app.pass == ASK then {SASL_CB_PASS} else {})
  }

  predicate Offered(prompts: Option<seq<Interact>>, id: nat) {
    prompts.Some? && FindEntry(prompts.value, id).Some?
  }

  /** Those the array at hand does not answer. */
  function Missing(app: App, prompts: Option<seq<Interact>>): set<nat> {
    set id | id in Wants(app) && !Offered(prompts, id)
  }

  function StepView(app: App, v: ClientView): ClientView
    requires v.Valid()
  {
    ClientStep(app, [], false, v).1
  }

  /** A step of the initial response that leaves the application an array. */
  predicate Requests(app: App, v: ClientView)
    requires v.Valid()
  {
    !app.ssfTooWeak && StepView(app, v).prompts.Some?
  }

  predicate CanRequest(app: App) {
    !app.ssfTooWeak && app.present && app.allocates
  }

  /** A step asks exactly for what is wanted and not answered yet. */
  lemma RequestsMissing(app: App, v: ClientView)
    requires v.Valid()
    ensures Requests(app, v) <==> CanRequest(app) && Missing(app, v.prompts) != {}
    ensures Requests(app, v) ==>
              && ClientStep(app, [], false, v).0 == SASL_INTERACT
              && forall id | id != SASL_CB_LIST_END ::
                   Offered(StepView(app, v).prompts, id) <==> id in Missing(app, v.prompts)
  {
    var user, pass := GetSimple(v.prompts, SASL_CB_USER, app.user), GetPassword(v.prompts, app.pass);
    assert user.NeedPrompt? <==> SASL_CB_USER in Missing(app, v.prompts);
    assert pass.NeedPrompt? <==> SASL_CB_PASS in Missing(app, v.prompts);
    assert Missing(app, v.prompts) <= {SASL_CB_USER, SASL_CB_PASS};
    if !user.NeedPrompt? && !pass.NeedPrompt? {
      assert Missing(app, v.prompts) == {};
    }
  }

  /** The application fills in an array: results change, ids stay. */
  predicate Filled(requested: seq<Interact>, filled: seq<Interact>) {
    |filled| == |requested| && ValidEntries(filled) && forall i | 0 <= i < |filled| :: filled[i].id == requested[i].id
  }

  lemma {:induction false} FilledOffersTheSame(requested: seq<Interact>, filled: seq<Interact>, id: nat)
    requires |filled| == |requested| && forall i | 0 <= i < |filled| :: filled[i].id == requested[i].id
    ensures FindEntry(filled, id).Some? <==> FindEntry(requested, id).Some?
  {
    if requested == [] {
    } else {
      FilledOffersTheSame(requested[1..], filled[1..], id);
    }
  }

  /** After an answered request, exactly the values it did not ask for are missing. */
  lemma MissingAfterRequest(app: App, v: ClientView, filled: seq<Interact>)
    requires v.Valid() && Requests(app, v) && Filled(StepView(app, v).prompts.value, filled)
    ensures Missing(app, Some(filled)) == Wants(app) - Missing(app, v.prompts)
  {
    RequestsMissing(app, v);
    forall id | id in Wants(app) ensures Offered(Some(filled), id) <==> id in Missing(app, v.prompts) {
      FilledOffersTheSame(StepView(app, v).prompts.value, filled, id);
    }
  }

  // ---------- rounds: the application answers and steps again after every request ----------

  predicate Answers(app: App, v: ClientView, fills: seq<seq<Interact>>)
    requires v.Valid()
    decreases fills
  {
    fills == [] || !Requests(app, v) ||
    (Filled(StepView(app, v).prompts.value, fills[0]) &&
     Answers(app, StepView(app, v).(prompts := Some(fills[0])), fills[1..]))
  }

  /** How many times the application is asked, if it answers with fills in turn. */
  function Rounds(app: App, v: ClientView, fills: seq<seq<Interact>>): nat
    requires v.Valid() && Answers(app, v, fills)
    decreases fills
  {
    if !Requests(app, v) then 0
    else if fills == [] then 1
    else 1 + Rounds(app, StepView(app, v).(prompts := Some(fills[0])), fills[1..])
  }

  /** An array that answers some but not all of what is wanted. */
  predicate Partial(app: App, prompts: Option<seq<Interact>>) {
    Missing(app, prompts) != {} && Missing(app, prompts) != Wants(app)
  }

  lemma WholeArraySettles(app: App, v: ClientView, fills: seq<seq<Interact>>)
    requires v.Valid() && Answers(app, v, fills) && !Partial(app, v.prompts)
    ensures Rounds(app, v, fills) <= 1
    ensures Rounds(app, v, fills) == 1 <==> CanRequest(app) && Missing(app, v.prompts) != {}
  {
    RequestsMissing(app, v);
    if Requests(app, v) && fills != [] {
      MissingAfterRequest(app, v, fills[0]);
      RequestsMissing(app, StepView(app, v).(prompts := Some(fills[0])));
    }
  }

  lemma EmptySlotIsNotPartial(app: App)
    ensures !Partial(app, None)
  {
    assert Missing(app, None) == Wants(app);
  }

  /** From a partial array every answer leads to the next request. */
  lemma {:induction false} PartialArrayAsksForever(app: App, v: ClientView, fills: seq<seq<Interact>>)
    requires v.Valid() && Answers(app, v, fills) && Partial(app, v.prompts) && CanRequest(app)
    ensures Rounds(app, v, fills) == |fills| + 1
    decreases fills
  {
    RequestsMissing(app, v);
    if fills != [] {
      MissingAfterRequest(app, v, fills[0]);
      PartialArrayAsksForever(app, StepView(app, v).(prompts := Some(fills[0])), fills[1..]);
    }
  }

  /**
   However often the application would answer, the cycle asks it at most once,
   exactly when it does not start from an array that answers some but not all
   of what is wanted; an empty slot is no such array.
   */
  lemma AskedAtMostOnce(app: App, v: ClientView, fills: seq<seq<Interact>>)
    requires v.Valid() && Answers(app, v, fills) && fills != []
    ensures Rounds(app, v, fills) <= 1 <==> !(CanRequest(app) && Partial(app, v.prompts))
    ensures v.prompts.None? ==> Rounds(app, v, fills) <= 1
  {
    EmptySlotIsNotPartial(app);
    RequestsMissing(app, v);
    if !Partial(app, v.prompts) {
      WholeArraySettles(app, v, fills);
    } else if CanRequest(app) {
      PartialArrayAsksForever(app, v, fills);
    }
  }

  // ---------- SASL_INTERACT without an array ----------

  /** The step asks this callback, and it fails with the code SASL_INTERACT itself. */
  predicate CallbackPasses(prompts: Option<seq<Interact>>, id: nat, callback: Callback) {
    !Offered(prompts, id) && callback.Registered? && callback.proc.Some? && callback.proc.value.rc == SASL_INTERACT
  }

  /** One of the two calls to canon_user returns that code. */
  predicate CanonPasses(canon: CanonUser, authzid: Option<string>, p: Params) {
    var name := if authzid.None? then ANONYMOUS else Encode(authzid.value);
    var (rc, p1) := canon(ANONYMOUS, SASL_CU_AUTHID, p);
    rc == SASL_INTERACT || (rc == SASL_OK && 0 !in name && canon(name, SASL_CU_AUTHZID, p1).0 == SASL_INTERACT)
  }

  /** The first failure of the step, if nothing is missing, is such a code. */
  predicate PassesInteract(app: App, v: ClientView)
    requires v.Valid()
  {
    var user, pass := GetSimple(v.prompts, SASL_CB_USER, app.user), GetPassword(v.prompts, app.pass);
    && !app.ssfTooWeak && Missing(app, v.prompts) == {}
    && (|| CallbackPasses(v.prompts, SASL_CB_USER, app.user)
        || (user.Value? && CallbackPasses(v.prompts, SASL_CB_PASS, app.pass))
        || (&& user.Value? && pass.Value? && CheckValues(app, user, pass).Ok?
            && CanonPasses(app.canon.value, CheckValues(app, user, pass).value.0, v.params)))
  }

  /** SASL_INTERACT comes from a step exactly if it asks, or passes on a code it was given; never both. */
  lemma InteractExactly(app: App, v: ClientView)
    requires v.Valid()
    ensures ClientStep(app, [], false, v).0 == SASL_INTERACT <==> Requests(app, v) || PassesInteract(app, v)
    ensures !(Requests(app, v) && PassesInteract(app, v))
    ensures PassesInteract(app, v) ==> StepView(app, v).prompts.None?
  {
    RequestsMissing(app, v);
  }

  /** A callback for the user that fails with SASL_INTERACT: the code, and nothing to fill in. */
  lemma InteractWithoutArray(app: App, v: ClientView)
    requires v.prompts.None? && !app.ssfTooWeak && app.pass != ASK
    requires app.user == Registered(Some(Answer(SASL_INTERACT, None)))
    ensures ClientStep(app, [], false, v).0 == SASL_INTERACT && StepView(app, v).prompts.None?
  {
    InteractExactly(app, v);
  }

  /**
   When a step is repeated although it did not ask, the array is gone: an
   application that is asked by callbacks is asked again.
   */
  lemma RepeatedStepAsksAgain(app: App, v: ClientView)
    requires v.Valid() && CanRequest(app) && Wants(app) != {} && !Requests(app, v)
    ensures Requests(app, StepView(app, v))
  {
    RequestsMissing(app, StepView(app, v));
    EmptySlotIsNotPartial(app);
    assert Missing(app, None) == Wants(app);
  }

  // ---------- the arrays: nothing is freed twice, one is live at most ----------

  /** The slot and the allocator by addresses. freed lists every free in order. */
  datatype Heap = Heap(view: ClientView, slot: Option<nat>, live: set<nat>, freed: seq<nat>, issued: nat)

  /** Between steps the application may fill the array, or free it and put another one, or none, in its place. */
  datatype Event =
    | Step(app: App, serverIn: seq<Byte>, isFinal: bool)
    | Fill(entries: seq<Interact>)
    | Swap(other: Option<seq<Interact>>)

  function Vacated(h: Heap, frees: bool): Heap {
    if h.slot.None? then h
    else h.(slot := None,
            live := if frees then h.live - {h.slot.value} else h.live,
            freed := if frees then h.freed + [h.slot.value] else h.freed)
  }

  function Installed(h: Heap): Heap {
    h.(slot := Some(h.issued), live := h.live + {h.issued}, issued := h.issued + 1)
  }

  predicate Legal(h: Heap, event: Event) {
    match event
    case Step(_, _, _) => h.view.Valid()
    case Fill(entries) => h.view.prompts.Some? && Filled(h.view.prompts.value, entries)
    case Swap(entries) => entries.Some? ==> ValidEntries(entries.value)
  }

  function After(h: Heap, event: Event): Heap
    requires Legal(h, event)
  {
    match event
    case Step(app, serverIn, isFinal) =>
      var view := ClientStep(app, serverIn, isFinal, h.view).1;
      var h1 := if Harvests(app, serverIn, isFinal) then Vacated(h, app.canFree) else h;
      var h2 := if Harvests(app, serverIn, isFinal) && view.prompts.Some? then Installed(h1) else h1;
      h2.(view := view)
    case Fill(entries) => h.(view := h.view.(prompts := Some(entries)))
    case Swap(entries) =>
      var h1 := Vacated(h, true);
      (if entries.Some? then Installed(h1) else h1).(view := h.view.(prompts := entries))
  }

  function AfterAll(h: Heap, events: seq<Event>): Option<Heap>
    decreases events
  {
    if events == [] then Some(h)
    else if !Legal(h, events[0]) then None
    else AfterAll(After(h, events[0]), events[1..])
  }

  predicate Sound(h: Heap) {
    && h.view.Valid()
    && (h.slot.Some? <==> h.view.prompts.Some?)
    && (h.slot.Some? ==> h.slot.value in h.live)
    && (forall a | a in h.live :: a < h.issued)
    && (forall a | a in h.freed :: a < h.issued && a !in h.live)
    && (forall i, j | 0 <= i < j < |h.freed| :: h.freed[i] != h.freed[j])
  }

  /** Every live array is the one in the slot. */
  predicate NoLeak(h: Heap) {
    h.live == if h.slot.Some? then {h.slot.value} else {}
  }

  /** The step has a free function, if it gets as far as using it. */
  predicate Frees(event: Event) {
    event.Step? && Harvests(event.app, event.serverIn, event.isFinal) ==> event.app.canFree
  }

  lemma VacatedSound(h: Heap, frees: bool)
    requires Sound(h)
    ensures var h' := Vacated(h, frees).(view := h.view.(prompts := None));
            Sound(h') && (NoLeak(h) && frees ==> NoLeak(h'))
  {
    var h' := Vacated(h, frees);
    forall i, j | 0 <= i < j < |h'.freed| ensures h'.freed[i] != h'.freed[j] {
      if h'.freed != h.freed && j == |h.freed| {
        assert h.freed[i] in h.freed;
      }
    }
  }

  lemma InstalledSound(h: Heap, view: ClientView)
    requires Sound(h) && h.slot.None? && view.Valid() && view.prompts.Some?
    ensures Sound(Installed(h).(view := view)) && (NoLeak(h) ==> NoLeak(Installed(h).(view := view)))
  {
  }

  lemma AfterSound(h: Heap, event: Event)
    requires Sound(h) && Legal(h, event)
    ensures Sound(After(h, event))
    ensures NoLeak(h) && Frees(event) ==> NoLeak(After(h, event))
  {
    match event {
      case Fill(_) =>
      case Swap(entries) =>
        VacatedSound(h, true);
        if entries.Some? {
          InstalledSound(Vacated(h, true).(view := h.view.(prompts := None)), h.view.(prompts := entries));
        }
      case Step(app, serverIn, isFinal) =>
        var view := ClientStep(app, serverIn, isFinal, h.view).1;
        if Harvests(app, serverIn, isFinal) {
          VacatedSound(h, app.canFree);
          if view.prompts.Some? {
            InstalledSound(Vacated(h, app.canFree).(view := h.view.(prompts := None)), view);
          }
        }
    }
  }

  /**
   Over any run from an empty slot: no array is freed twice or used after it
   was freed, and if every step that harvests has a free function at most one
   is live, the one in the slot.
   */
  lemma {:induction false} AllocationSafety(h: Heap, events: seq<Event>)
    requires Sound(h) && AfterAll(h, events).Some?
    ensures Sound(AfterAll(h, events).value)
    ensures NoLeak(h) && (forall e | e in events :: Frees(e)) ==> NoLeak(AfterAll(h, events).value)
    decreases events
  {
    if events == [] {
    } else {
      AfterSound(h, events[0]);
      AllocationSafety(After(h, events[0]), events[1..]);
    }
  }

  /** A step that harvests frees the array it read, and only that one; any other step leaves the arrays alone. */
  lemma StepFreesWhatItRead(h: Heap, app: App, serverIn: seq<Byte>, isFinal: bool)
    requires Sound(h)
    ensures var h' := After(h, Step(app, serverIn, isFinal));
            if Harvests(app, serverIn, isFinal) && app.canFree && h.slot.Some?
            then h'.freed == h.freed + [h.slot.value] && h.slot.value !in h'.live && h'.slot != h.slot
            else h'.freed == h.freed && h.live <= h'.live
    ensures !Harvests(app, serverIn, isFinal) ==> After(h, Step(app, serverIn, isFinal)).slot == h.slot
  {
  }

  // ---------- exactly when nothing leaks ----------

  /** A run with one application; it can only supply an array if there is a place for one. */
  ghost predicate OfApp(app: App, event: Event) {
    && (event.Step? ==> event.app == app)
    && (event.Swap? && event.other.Some? ==> app.present)
  }

  ghost predicate NeverLeaks(app: App) {
    forall h, events |
      && Sound(h) && NoLeak(h) && (h.slot.Some? ==> app.present)
      && (forall e | e in events :: OfApp(app, e)) && AfterAll(h, events).Some? ::
      NoLeak(AfterAll(h, events).value)
  }

  /** Without a place for an array there never is one. */
  lemma {:induction false} NoPlaceNoArray(app: App, h: Heap, events: seq<Event>)
    requires !app.present && Sound(h) && NoLeak(h) && h.slot.None?
    requires (forall e | e in events :: OfApp(app, e)) && AfterAll(h, events).Some?
    ensures NoLeak(AfterAll(h, events).value)
    decreases events
  {
    if events == [] {
    } else {
      assert OfApp(app, events[0]);
      AfterSound(h, events[0]);
      assert After(h, events[0]).slot.None?;
      NoPlaceNoArray(app, After(h, events[0]), events[1..]);
    }
  }

  function EmptyHeap(): (h: Heap)
    ensures Sound(h) && NoLeak(h)
  {
    var params := Params(0, 0, 0, None, None, None, None, 0, None, None);
    Heap(ClientView([], NOTHING, params, None), None, {}, [], 0)
  }

  /** An array the application supplied is read, forgotten, and stays allocated. */
  lemma SuppliedArrayLeaks(app: App) returns (events: seq<Event>)
    requires app.present && !app.canFree && !app.ssfTooWeak
    ensures (forall e | e in events :: OfApp(app, e)) && AfterAll(EmptyHeap(), events).Some?
    ensures !NoLeak(AfterAll(EmptyHeap(), events).value)
  {
    assert LIST_END in [LIST_END];
    var supply, step := Swap(Some([LIST_END])), Step(app, [], false);
    var h1 := After(EmptyHeap(), supply);
    events := [supply, step];
    assert events[1..] == [step] && [step][1..] == [];
    assert AfterAll(h1, [step]) == Some(After(h1, step));
    assert 0 in After(h1, step).live && After(h1, step).slot != Some(0);
  }

  /**
   Every run of an application keeps at most one array live exactly if it can
   free, never gets that far, or has no place for one.
   */
  lemma NeverLeaksExactly(app: App)
    ensures NeverLeaks(app) <==> app.canFree || app.ssfTooWeak || !app.present
  {
    if app.canFree || app.ssfTooWeak {
      forall h, events |
        && Sound(h) && NoLeak(h) && (h.slot.Some? ==> app.present)
        && (forall e | e in events :: OfApp(app, e)) && AfterAll(h, events).Some?
        ensures NoLeak(AfterAll(h, events).value)
      {
        assert forall e | e in events :: OfApp(app, e) && Frees(e);
        AllocationSafety(h, events);
      }
    } else if !app.present {
      forall h, events |
        && Sound(h) && NoLeak(h) && (h.slot.Some? ==> app.present)
        && (forall e | e in events :: OfApp(app, e)) && AfterAll(h, events).Some?
        ensures NoLeak(AfterAll(h, events).value)
      {
        NoPlaceNoArray(app, h, events);
      }
    } else {
      var events := SuppliedArrayLeaks(app);
    }
  }

  /** So does the client's own array, once it is answered. */
  lemma LeakWithoutFree(h: Heap, app: App, entries: seq<Interact>)
    requires Sound(h) && NoLeak(h) && h.slot.None? && !app.canFree && CanRequest(app) && Wants(app) != {}
    requires Requests(app, h.view) && Filled(StepView(app, h.view).prompts.value, entries)
    ensures var end := AfterAll(h, [Step(app, [], false), Fill(entries), Step(app, [], false)]);
            end.Some? && end.value.slot.None? && |end.value.live| == 1
  {
    var first := Step(app, [], false);
    var h1 := After(h, first);
    var h2 := After(h1, Fill(entries));
    AfterSound(h, first);
    AfterSound(h1, Fill(entries));
    EmptySlotIsNotPartial(app);
    assert h.view.prompts == None;
    assert Missing(app, None) == Wants(app);
    MissingAfterRequest(app, h.view, entries);
    RequestsMissing(app, h2.view);
    var events := [first, Fill(entries), first];
    assert events[1..] == [Fill(entries), first] && events[1..][1..] == [first] && [first][1..] == [];
    assert AfterAll(h2, [first]) == Some(After(h2, first));
    assert After(h2, first).live == {h.issued};
  }
}
