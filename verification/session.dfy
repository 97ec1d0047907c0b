/** A session of the screen: any sequence of settled handler events applied
    from the mount state, in whatever order the responses arrive. Each field
    of the resulting state is characterised by the events alone, without
    replaying them. */
module Session {
  import opened Options
  import opened Feed

  /** One atomic step of the screen: a feed request is issued (on mount or
      at the end of the list), a feed request settles, or a reveal request
      settles. */
  datatype Event =
    | FetchStarted
    | FetchSettled(feed: Outcome<seq<Item>>)
    | RevealSettled(id: string, answer: Outcome<Answer>)
  {
    predicate FetchSucceeded() {
      FetchSettled? && feed.Succeeded?
    }

    predicate FetchFailed() {
      FetchSettled? && feed.Failed?
    }

    predicate RevealSucceeded(key: string) {
      RevealSettled? && id == key && answer.Succeeded?
    }
  }

  function Step(st: State, e: Event): State {
    match e
    case FetchStarted => FetchStart(st)
    case FetchSettled(o) => FetchSettle(st, o)
    case RevealSettled(id, o) => Reveal(st, id, o)
  }

  /** Applies the events in order. Along any run an error, once shown, stays
      shown and can only ever be the fetch message, and a revealed answer is
      never forgotten. */
  function Run(st: State, evs: seq<Event>): (r: State)
    ensures r.error == st.error || r.error == FetchErrorMessage
    ensures st.error != "" ==> r.error != ""
    ensures st.correctAnswer.Keys <= r.correctAnswer.Keys
    decreases |evs|
  {
    if |evs| == 0 then st else Step(Run(st, evs[..|evs| - 1]), evs[|evs| - 1])
  }

  /** Event `k` is the last successful feed response. */
  predicate LatestFeedAt(evs: seq<Event>, k: int) {
    && 0 <= k < |evs|
    && evs[k].FetchSucceeded()
    && forall j :: k < j < |evs| ==> !evs[j].FetchSucceeded()
  }

  /** Event `k` is the last successful reveal of `id`. */
  predicate LatestRevealAt(evs: seq<Event>, id: string, k: int) {
    && 0 <= k < |evs|
    && evs[k].RevealSucceeded(id)
    && forall j :: k < j < |evs| ==> !evs[j].RevealSucceeded(id)
  }

  /** Some feed request was issued at `k` and no feed request settled after it. */
  predicate PendingFrom(evs: seq<Event>, k: int) {
    && 0 <= k < |evs|
    && evs[k].FetchStarted?
    && forall j :: k < j < |evs| ==> !evs[j].FetchSettled?
  }

  lemma RunSnoc(st: State, evs: seq<Event>, e: Event)
    ensures Run(st, evs + [e]) == Step(Run(st, evs), e)
  {
    assert (evs + [e])[..|evs|] == evs;
  }

  /** The list shows the payload of the last successful feed response, and is
      empty while there has been none: responses replace, never append. */
  lemma {:induction false} DataIsLatestPayload(evs: seq<Event>)
    ensures (forall j :: 0 <= j < |evs| ==> !evs[j].FetchSucceeded()) ==> Run(Initial, evs).data == []
    ensures forall k :: LatestFeedAt(evs, k) ==> Run(Initial, evs).data == evs[k].feed.body
    decreases |evs|
  {
    if |evs| > 0 {
      var p := evs[..|evs| - 1];
      var e := evs[|evs| - 1];
      assert evs == p + [e];
      RunSnoc(Initial, p, e);
      DataIsLatestPayload(p);
      forall k | LatestFeedAt(evs, k)
        ensures Run(Initial, evs).data == evs[k].feed.body
      {
        if k < |p| {
          assert LatestFeedAt(p, k);
        }
      }
    }
  }

  /** The error text is the fetch message exactly when some feed request has
      failed, and empty otherwise: no later success clears it. */
  lemma {:induction false} ErrorIffSomeFetchFailed(evs: seq<Event>)
    ensures (exists k :: 0 <= k < |evs| && evs[k].FetchFailed()) ==> Run(Initial, evs).error == FetchErrorMessage
    ensures (forall k :: 0 <= k < |evs| ==> !evs[k].FetchFailed()) ==> Run(Initial, evs).error == ""
    decreases |evs|
  {
    if |evs| > 0 {
      var p := evs[..|evs| - 1];
      var e := evs[|evs| - 1];
      assert evs == p + [e];
      RunSnoc(Initial, p, e);
      ErrorIffSomeFetchFailed(p);
      if exists k :: 0 <= k < |evs| && evs[k].FetchFailed() {
        var k :| 0 <= k < |evs| && evs[k].FetchFailed();
        if k < |p| {
          assert p[k].FetchFailed();
        }
      }
    }
  }

  /** The spinner shows exactly while some feed request issued after the last
      settled one is outstanding. */
  lemma {:induction false} LoadingIffPending(evs: seq<Event>)
    ensures Run(Initial, evs).loading <==> exists k :: PendingFrom(evs, k)
    decreases |evs|
  {
    if |evs| > 0 {
      var p := evs[..|evs| - 1];
      var e := evs[|evs| - 1];
      assert evs == p + [e];
      RunSnoc(Initial, p, e);
      LoadingIffPending(p);
      if e.FetchStarted? {
        assert PendingFrom(evs, |evs| - 1);
      } else if e.FetchSettled? {
        assert forall k :: !PendingFrom(evs, k);
      } else {
        if exists k :: PendingFrom(p, k) {
          var k :| PendingFrom(p, k);
          assert PendingFrom(evs, k);
        }
        if exists k :: PendingFrom(evs, k) {
          var k :| PendingFrom(evs, k);
          assert PendingFrom(p, k);
        }
      }
    }
  }

  /** An item has a stored answer exactly when a reveal of its id has
      succeeded, and the stored answer is the one the last such reveal
      returned. */
  lemma {:induction false} AnswerIsLatestReveal(evs: seq<Event>, id: string)
    ensures id in Run(Initial, evs).correctAnswer <==> exists k :: 0 <= k < |evs| && evs[k].RevealSucceeded(id)
    ensures forall k :: LatestRevealAt(evs, id, k) ==>
      id in Run(Initial, evs).correctAnswer && Run(Initial, evs).correctAnswer[id] == evs[k].answer.body
    decreases |evs|
  {
    if |evs| > 0 {
      var p := evs[..|evs| - 1];
      var e := evs[|evs| - 1];
      assert evs == p + [e];
      RunSnoc(Initial, p, e);
      AnswerIsLatestReveal(p, id);
      if exists k :: 0 <= k < |p| && p[k].RevealSucceeded(id) {
        var k :| 0 <= k < |p| && p[k].RevealSucceeded(id);
        assert evs[k].RevealSucceeded(id);
      }
      if exists k :: 0 <= k < |evs| && evs[k].RevealSucceeded(id) {
        var k :| 0 <= k < |evs| && evs[k].RevealSucceeded(id);
        if k < |p| {
          assert p[k].RevealSucceeded(id);
        }
      }
      forall k | LatestRevealAt(evs, id, k)
        ensures id in Run(Initial, evs).correctAnswer && Run(Initial, evs).correctAnswer[id] == evs[k].answer.body
      {
        if k < |p| {
          assert LatestRevealAt(p, id, k);
        }
      }
    }
  }

  /** A choice is highlighted exactly when the last successful reveal of its
      item returned that choice's text; before any successful reveal of the
      item, none of its choices is. */
  lemma {:induction false} HighlightIffLatestRevealMatches(evs: seq<Event>, item: Item, choice: string)
    ensures (forall k :: 0 <= k < |evs| ==> !evs[k].RevealSucceeded(item.id)) ==> !IsHighlighted(Run(Initial, evs), item, choice)
    ensures forall k :: LatestRevealAt(evs, item.id, k) ==>
      (IsHighlighted(Run(Initial, evs), item, choice) <==> evs[k].answer.body == Some(choice))
  {
    AnswerIsLatestReveal(evs, item.id);
  }

}
