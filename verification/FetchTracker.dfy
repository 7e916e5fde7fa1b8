// Sets of HTTP requests that are fetched asynchronously. Each step of the
// tracker runs under one lock; fetches complete in any order.
module FetchTracking {
  import opened Options

  datatype Response = Response(status: nat, headers: map<string, string>, body: string)

  const NO_RESPONSE := Response(0, map[], "")
  const TOO_MANY_REQUESTS := 429

  // A fetch that has been started and has not reported back yet.
  datatype Pending = Pending(id: nat, i: nat, url: string)

  // A request set. The fetch of a request that has been answered is None. The
  // serial number is not stored by the tracker: it tells apart the sets that
  // use the same id one after the other.
  datatype Tracked = Tracked(serial: nat, urls: seq<string>, fetches: seq<Option<nat>>, hasCallback: bool)

  datatype Submission = Submission(urls: seq<string>, hasCallback: bool)

  // A callback that was made.
  datatype Fired = Fired(serial: nat, responses: seq<Response>)

  datatype World = World(
    requests: map<nat, Tracked>,
    responses: map<nat, seq<Response>>,
    outstanding: map<nat, Pending>,
    answers: map<(nat, nat), Response>,   // final answer to request i of set serial
    fired: seq<Fired>,
    nextFetch: nat,
    submitted: seq<Submission>)           // by serial number

  const START := World(map[], map[], map[], map[], [], 0, [])

  // ----- Steps --------------------------------------------------------------

  function NewFetches(first: nat, n: nat): (f: seq<Option<nat>>)
    ensures |f| == n && forall i :: 0 <= i < n ==> f[i] == Some(first + i)
  {
    seq(n, i => Some(first + i))
  }

  // The fetches of a set are started in order, with consecutive handles.
  function Started(outstanding: map<nat, Pending>, id: nat, first: nat, urls: seq<string>): (r: map<nat, Pending>)
    ensures forall h {:trigger h in r} :: h in r <==> h in outstanding || first <= h < first + |urls|
    ensures forall h {:trigger r[h]} :: first <= h < first + |urls| ==> r[h] == Pending(id, h - first, urls[h - first])
    ensures forall h {:trigger r[h]} :: h in outstanding && h < first ==> r[h] == outstanding[h]
  {
    var n := |urls| - 1;
    if |urls| == 0 then outstanding
    else Started(outstanding, id, first, urls[..n])[first + n := Pending(id, n, urls[n])]
  }

  function NoResponses(n: nat): (r: seq<Response>)
    ensures |r| == n && forall i :: 0 <= i < n ==> r[i] == NO_RESPONSE
  {
    seq(n, _ => NO_RESPONSE)
  }

  // The id is the number of sets in the tracker; a set that still uses it makes
  // the submission fail.
  predicate CanSubmit(w: World)
  {
    |w.requests| !in w.requests && |w.requests| !in w.responses
  }

  function Submit(w: World, urls: seq<string>, hasCallback: bool): World
  {
    var id := |w.requests|;
    if id in w.requests then w
    else if id in w.responses then w.(requests := w.requests[id := Tracked(|w.submitted|, urls, [], false)])
    else w.(requests := w.requests[id := Tracked(|w.submitted|, urls, NewFetches(w.nextFetch, |urls|), hasCallback)],
            responses := w.responses[id := NoResponses(|urls|)],
            outstanding := Started(w.outstanding, id, w.nextFetch, urls),
            nextFetch := w.nextFetch + |urls|,
            submitted := w.submitted + [Submission(urls, hasCallback)])
  }

  // Records a reply: 429 starts the fetch again, anything else is the answer.
  function Record(w: World, p: Pending, reply: Response): World
    requires p.id in w.requests && p.id in w.responses
    requires p.i < |w.requests[p.id].fetches| && p.i < |w.responses[p.id]|
  {
    var set' := w.requests[p.id];
    var answers := w.responses[p.id];
    if reply.status == TOO_MANY_REQUESTS then
      w.(requests := w.requests[p.id := set'.(fetches := set'.fetches[p.i := Some(w.nextFetch)])],
         responses := w.responses[p.id := answers[p.i := NO_RESPONSE]],
         outstanding := w.outstanding[w.nextFetch := p],
         nextFetch := w.nextFetch + 1)
    else
      var response := Response(reply.status, answers[p.i].headers + reply.headers, reply.body);
      w.(requests := w.requests[p.id := set'.(fetches := set'.fetches[p.i := None])],
         responses := w.responses[p.id := answers[p.i := response]],
         answers := w.answers[(set'.serial, p.i) := response])
  }

  predicate AllAnswered(s: Tracked)
  {
    forall i :: 0 <= i < |s.fetches| ==> s.fetches[i] == None
  }

  // Makes the callback of a set that is complete, and forgets the set.
  function Fire(w: World, id: nat): World
    requires id in w.requests && id in w.responses
  {
    if w.requests[id].hasCallback && AllAnswered(w.requests[id]) then
      w.(fired := w.fired + [Fired(w.requests[id].serial, w.responses[id])],
         requests := w.requests - {id},
         responses := w.responses - {id})
    else w
  }

  // The reply to an outstanding fetch arrives.
  function Complete(w: World, fetch: nat, reply: Response): World
    requires fetch in w.outstanding
  {
    var p := w.outstanding[fetch];
    var w' := w.(outstanding := w.outstanding - {fetch});
    if p.id in w'.requests && p.id in w'.responses
       && p.i < |w'.requests[p.id].fetches| && p.i < |w'.responses[p.id]|
    then Fire(Record(w', p, reply), p.id)
    else w'
  }

  function Erase(w: World, id: nat): World
  {
    w.(requests := w.requests - {id}, responses := w.responses - {id})
  }

  // ----- The invariant ------------------------------------------------------

  // A live set: its slots and the outstanding fetches refer to each other, and
  // answered slots hold their answers.
  ghost predicate SetOk(w: World, id: nat)
    requires id in w.requests && id in w.responses
  {
    var s := w.requests[id];
    && s.serial < |w.submitted|
    && |s.fetches| == |s.urls| == |w.responses[id]|
    && forall i :: 0 <= i < |s.urls| ==> SlotOk(w, id, i)
  }

  // A set whose callback is due does not stay.
  predicate Waiting(s: Tracked)
  {
    s.hasCallback && |s.urls| > 0 ==> !AllAnswered(s)
  }

  ghost predicate SlotOk(w: World, id: nat, i: nat)
    requires id in w.requests && id in w.responses
    requires i < |w.requests[id].fetches| && |w.requests[id].fetches| == |w.requests[id].urls| == |w.responses[id]|
  {
    var s := w.requests[id];
    match s.fetches[i]
    case Some(h) =>
      && h in w.outstanding && w.outstanding[h] == Pending(id, i, s.urls[i])
      && (s.serial, i) !in w.answers && w.responses[id][i] == NO_RESPONSE
    case None =>
      && (s.serial, i) in w.answers && w.answers[(s.serial, i)] == w.responses[id][i]
      && w.responses[id][i].status != TOO_MANY_REQUESTS
  }

  // An outstanding fetch belongs to exactly one slot.
  ghost predicate FetchOk(w: World, h: nat)
    requires h in w.outstanding
  {
    var p := w.outstanding[h];
    && h < w.nextFetch
    && p.id in w.requests && p.i < |w.requests[p.id].fetches|
    && w.requests[p.id].fetches[p.i] == Some(h)
  }

  // A callback that was made passed on the answers, in the order of requests.
  ghost predicate FiredOk(w: World, f: Fired)
  {
    && f.serial < |w.submitted|
    && forall i :: 0 <= i < |f.responses| ==>
         && (f.serial, i) in w.answers && w.answers[(f.serial, i)] == f.responses[i]
         && f.responses[i].status != TOO_MANY_REQUESTS
  }

  ghost predicate SetsOk(w: World)
  {
    w.requests.Keys == w.responses.Keys && forall id :: id in w.requests ==> SetOk(w, id)
  }

  ghost predicate FetchesOk(w: World)
  {
    forall h :: h in w.outstanding ==> FetchOk(w, h)
  }

  // Serial numbers are never shared, neither by live sets nor by callbacks.
  ghost predicate SerialsOk(w: World)
  {
    && (forall id :: id in w.requests ==> w.requests[id].serial < |w.submitted|)
    && (forall id, id' :: id in w.requests && id' in w.requests && id != id' ==>
          w.requests[id].serial != w.requests[id'].serial)
    && (forall k, id :: 0 <= k < |w.fired| && id in w.requests ==> w.fired[k].serial != w.requests[id].serial)
    && (forall k, k' :: 0 <= k < k' < |w.fired| ==> w.fired[k].serial != w.fired[k'].serial)
    && (forall a :: a in w.answers ==> a.0 < |w.submitted|)
  }

  // Every set with a callback and at least one request is either live or has
  // had its callback made; live sets and callbacks fit their submissions.
  ghost predicate AccountsOk(w: World)
  {
    && (forall id :: id in w.requests ==> Fits(w, w.requests[id]))
    && (forall k :: 0 <= k < |w.fired| ==> FiredFits(w, w.fired[k]))
    && (forall n :: 0 <= n < |w.submitted| && w.submitted[n].hasCallback && w.submitted[n].urls != [] ==>
          Live(w, n) || CalledBack(w, n))
  }

  ghost predicate Fits(w: World, s: Tracked)
  {
    s.serial < |w.submitted| && w.submitted[s.serial] == Submission(s.urls, s.hasCallback)
  }

  ghost predicate FiredFits(w: World, f: Fired)
  {
    f.serial < |w.submitted| && w.submitted[f.serial].hasCallback
    && |f.responses| == |w.submitted[f.serial].urls| && f.responses != []
  }

  ghost predicate Live(w: World, serial: nat)
  {
    exists id :: id in w.requests && w.requests[id].serial == serial
  }

  ghost predicate CalledBack(w: World, serial: nat)
  {
    exists k :: 0 <= k < |w.fired| && w.fired[k].serial == serial
  }

  ghost predicate FiredAllOk(w: World)
  {
    forall k :: 0 <= k < |w.fired| ==> FiredOk(w, w.fired[k])
  }

  // Everything but what makes a complete set leave.
  ghost predicate Core(w: World)
  {
    SetsOk(w) && FetchesOk(w) && SerialsOk(w) && FiredAllOk(w) && AccountsOk(w)
  }

  ghost predicate Inv(w: World)
  {
    Core(w) && forall id :: id in w.requests ==> Waiting(w.requests[id])
  }

  // ----- Submitting ---------------------------------------------------------

  lemma SubmitKeepsInv(w: World, urls: seq<string>, hasCallback: bool)
    requires Inv(w)
    ensures Inv(Submit(w, urls, hasCallback))
  {
    hide SetsOk, FetchesOk, SerialsOk, FiredAllOk, AccountsOk, Waiting;
    if CanSubmit(w) {
      SubmitKeepsAccounts(w, urls, hasCallback);
      SubmitKeepsSets(w, urls, hasCallback);
      SubmitKeepsFetches(w, urls, hasCallback);
      SubmitKeepsSerials(w, urls, hasCallback);
      SubmitKeepsFired(w, urls, hasCallback);
      NewSetWaits(w, urls, hasCallback);
    } else {
      FailedSubmission(w, urls, hasCallback);
    }
  }

  // A submission that fails changes nothing.
  lemma FailedSubmission(w: World, urls: seq<string>, hasCallback: bool)
    requires SetsOk(w) && !CanSubmit(w)
    ensures Submit(w, urls, hasCallback) == w
  {
  }

  lemma NewSetWaits(w: World, urls: seq<string>, hasCallback: bool)
    ensures Waiting(Tracked(|w.submitted|, urls, NewFetches(w.nextFetch, |urls|), hasCallback))
  {
    if |urls| > 0 { assert NewFetches(w.nextFetch, |urls|)[0] != None; }
  }

  lemma SubmitKeepsSets(w: World, urls: seq<string>, hasCallback: bool)
    requires SetsOk(w) && FetchesOk(w) && SerialsOk(w) && CanSubmit(w)
    ensures SetsOk(Submit(w, urls, hasCallback))
  {
    hide Started, SetOk, SerialsOk;
    var w' := Submit(w, urls, hasCallback);
    forall id | id in w'.requests
      ensures SetOk(w', id)
    {
      if id == |w.requests| { SubmittedSet(w, urls, hasCallback); } else { OtherSet(w, urls, hasCallback, id); }
    }
  }

  lemma SubmittedSet(w: World, urls: seq<string>, hasCallback: bool)
    requires SerialsOk(w) && CanSubmit(w)
    ensures var w' := Submit(w, urls, hasCallback); SetOk(w', |w.requests|)
  {
    SubmittedParts(w, urls, hasCallback);
    hide Started, SlotOk, SerialsOk, Submit;
    var w' := Submit(w, urls, hasCallback);
    forall i | 0 <= i < |urls|
      ensures SlotOk(w', |w.requests|, i)
    {
      SubmittedSlot(w, urls, hasCallback, i);
    }
  }

  lemma SubmittedSlot(w: World, urls: seq<string>, hasCallback: bool, i: nat)
    requires SerialsOk(w) && CanSubmit(w) && i < |urls|
    ensures var w' := Submit(w, urls, hasCallback); SlotOk(w', |w.requests|, i)
  {
    NotAnsweredYet(w, i);
    SubmittedParts(w, urls, hasCallback);
    SubmittedFetch(w, urls, hasCallback, i);
    hide Started, SerialsOk, Submit, SlotOk, NewFetches, NoResponses, CanSubmit;
    OpenSlot(Submit(w, urls, hasCallback), |w.requests|, i, w.nextFetch + i);
  }

  lemma OpenSlot(w: World, id: nat, i: nat, h: nat)
    requires id in w.requests && id in w.responses
    requires i < |w.requests[id].fetches| && |w.requests[id].fetches| == |w.requests[id].urls| == |w.responses[id]|
    requires w.requests[id].fetches[i] == Some(h) && w.responses[id][i] == NO_RESPONSE
    requires h in w.outstanding && w.outstanding[h] == Pending(id, i, w.requests[id].urls[i])
    requires (w.requests[id].serial, i) !in w.answers
    ensures SlotOk(w, id, i)
  {
  }

  lemma SubmittedFetch(w: World, urls: seq<string>, hasCallback: bool, i: nat)
    requires CanSubmit(w) && i < |urls|
    ensures var w', h := Submit(w, urls, hasCallback), w.nextFetch + i;
      h in w'.outstanding && w'.outstanding[h] == Pending(|w.requests|, i, urls[i])
  {
    hide Started;
  }

  lemma SubmittedParts(w: World, urls: seq<string>, hasCallback: bool)
    requires CanSubmit(w)
    ensures var w' := Submit(w, urls, hasCallback); var id := |w.requests|;
      && id in w'.requests && id in w'.responses
      && w'.requests[id] == Tracked(|w.submitted|, urls, NewFetches(w.nextFetch, |urls|), hasCallback)
      && w'.responses[id] == NoResponses(|urls|)
      && w'.answers == w.answers && w'.submitted == w.submitted + [Submission(urls, hasCallback)]
  {
    hide Started;
  }

  lemma NotAnsweredYet(w: World, i: nat)
    requires SerialsOk(w)
    ensures (|w.submitted|, i) !in w.answers
  {
  }

  lemma OtherSet(w: World, urls: seq<string>, hasCallback: bool, id: nat)
    requires SetsOk(w) && FetchesOk(w) && CanSubmit(w) && id in w.requests
    ensures var w' := Submit(w, urls, hasCallback);
      id in w'.requests && id in w'.responses && SetOk(w', id)
  {
    hide Started;
    var w' := Submit(w, urls, hasCallback);
    assert SetOk(w, id);
    forall i | 0 <= i < |w.requests[id].urls|
      ensures SlotOk(w', id, i)
    {
      assert SlotOk(w, id, i);
      if w.requests[id].fetches[i].Some? { assert FetchOk(w, w.requests[id].fetches[i].value); }
    }
  }

  lemma SubmitKeepsFetches(w: World, urls: seq<string>, hasCallback: bool)
    requires FetchesOk(w) && CanSubmit(w)
    ensures FetchesOk(Submit(w, urls, hasCallback))
  {
    hide Started, Submit, FetchOk;
    var w' := Submit(w, urls, hasCallback);
    forall h | h in w'.outstanding
      ensures FetchOk(w', h)
    {
      FetchStays(w, urls, hasCallback, h);
    }
  }

  lemma FetchStays(w: World, urls: seq<string>, hasCallback: bool, h: nat)
    requires FetchesOk(w) && CanSubmit(w) && h in Submit(w, urls, hasCallback).outstanding
    ensures FetchOk(Submit(w, urls, hasCallback), h)
  {
    hide Started;
    if h in w.outstanding { assert FetchOk(w, h); }
  }

  lemma SubmitKeepsSerials(w: World, urls: seq<string>, hasCallback: bool)
    requires SerialsOk(w) && FiredAllOk(w) && CanSubmit(w)
    ensures SerialsOk(Submit(w, urls, hasCallback))
  {
    hide Started;
    forall k | 0 <= k < |w.fired|
      ensures w.fired[k].serial < |w.submitted|
    {
      assert FiredOk(w, w.fired[k]);
    }
  }

  lemma SubmitKeepsFired(w: World, urls: seq<string>, hasCallback: bool)
    requires FiredAllOk(w)
    ensures FiredAllOk(Submit(w, urls, hasCallback))
  {
    hide Started;
    var w' := Submit(w, urls, hasCallback);
    forall k | 0 <= k < |w'.fired|
      ensures FiredOk(w', w'.fired[k])
    {
      assert FiredOk(w, w.fired[k]);
    }
  }

  lemma SubmitKeepsAccounts(w: World, urls: seq<string>, hasCallback: bool)
    requires AccountsOk(w) && CanSubmit(w)
    ensures AccountsOk(Submit(w, urls, hasCallback))
  {
    hide Started;
    var w' := Submit(w, urls, hasCallback);
    forall id | id in w'.requests
      ensures Fits(w', w'.requests[id])
    {
      if id != |w.requests| { assert Fits(w, w.requests[id]); }
    }
    forall k | 0 <= k < |w'.fired|
      ensures FiredFits(w', w'.fired[k])
    {
      assert FiredFits(w, w.fired[k]);
    }
    forall n | 0 <= n < |w'.submitted| && w'.submitted[n].hasCallback && w'.submitted[n].urls != []
      ensures Live(w', n) || CalledBack(w', n)
    {
      if n == |w.submitted| {
        assert |w.requests| in w'.requests && w'.requests[|w.requests|].serial == n;
      } else {
        assert w'.submitted[n] == w.submitted[n];
        SubmitKeepsLive(w, urls, hasCallback, n);
      }
    }
  }

  lemma SubmitKeepsLive(w: World, urls: seq<string>, hasCallback: bool, n: nat)
    requires CanSubmit(w)
    ensures Live(w, n) ==> Live(Submit(w, urls, hasCallback), n)
    ensures CalledBack(w, n) ==> CalledBack(Submit(w, urls, hasCallback), n)
  {
    var w' := Submit(w, urls, hasCallback);
    if Live(w, n) {
      var id :| id in w.requests && w.requests[id].serial == n;
      assert id in w'.requests && w'.requests[id].serial == n;
    }
    if CalledBack(w, n) {
      var k :| 0 <= k < |w.fired| && w.fired[k].serial == n;
      assert w'.fired[k].serial == n;
    }
  }

  // A submission leaves every live set and its fetches alone.
  lemma SubmitFrame(w: World, urls: seq<string>, hasCallback: bool, id: nat)
    requires Inv(w) && id in w.requests
    ensures var w' := Submit(w, urls, hasCallback);
      && id in w'.requests && w'.requests[id] == w.requests[id] && w'.responses[id] == w.responses[id]
      && forall h :: h in w.outstanding ==> h in w'.outstanding && w'.outstanding[h] == w.outstanding[h]
  {
    hide Started;
    var w' := Submit(w, urls, hasCallback);
    forall h | h in w.outstanding
      ensures h in w'.outstanding && w'.outstanding[h] == w.outstanding[h]
    {
      assert FetchOk(w, h);
    }
  }

  // ----- Completing ---------------------------------------------------------

  // The world after the report of an outstanding fetch has been recorded.
  function Recorded(w: World, fetch: nat, reply: Response): World
    requires fetch in w.outstanding && FetchOk(w, fetch) && SetsOk(w)
  {
    var p := w.outstanding[fetch];
    assert SetOk(w, p.id);
    Record(w.(outstanding := w.outstanding - {fetch}), p, reply)
  }

  lemma RecordedOwnSlot(w: World, fetch: nat, reply: Response)
    requires SetsOk(w) && SerialsOk(w) && fetch in w.outstanding && FetchOk(w, fetch)
    ensures var w' := Recorded(w, fetch, reply); var p := w.outstanding[fetch];
      && p.id in w'.requests && p.id in w'.responses
      && p.i < |w'.requests[p.id].fetches| && |w'.requests[p.id].fetches| == |w'.requests[p.id].urls| == |w'.responses[p.id]|
      && SlotOk(w', p.id, p.i)
  {
    hide SerialsOk;
    var p := w.outstanding[fetch];
    assert SetOk(w, p.id) && SlotOk(w, p.id, p.i);
    assert map[] + reply.headers == reply.headers;
  }

  lemma RecordedOtherSlot(w: World, fetch: nat, reply: Response, id: nat, i: nat)
    requires SetsOk(w) && FetchesOk(w) && SerialsOk(w) && fetch in w.outstanding && FetchOk(w, fetch)
    requires id in w.requests && i < |w.requests[id].urls| && (id != w.outstanding[fetch].id || i != w.outstanding[fetch].i)
    ensures var w' := Recorded(w, fetch, reply);
      && id in w'.requests && id in w'.responses
      && |w'.requests[id].fetches| == |w'.requests[id].urls| == |w'.responses[id]| == |w.requests[id].urls|
      && SlotOk(w', id, i)
  {
    hide SetOk, SlotOk;
    var w' := Recorded(w, fetch, reply);
    var p := w.outstanding[fetch];
    RecordedShape(w, fetch, reply, id);
    assert w.requests[id].serial == w.requests[p.id].serial ==> id == p.id;
    SlotFrame(w, w', fetch, id, i);
  }

  // Recording a reply keeps the sizes of every set, and everything but the
  // slot of the fetch.
  lemma RecordedShape(w: World, fetch: nat, reply: Response, id: nat)
    requires SetsOk(w) && fetch in w.outstanding && FetchOk(w, fetch) && id in w.requests
    ensures var w' := Recorded(w, fetch, reply); var p := w.outstanding[fetch];
      && id in w'.requests && id in w'.responses
      && SetOk(w, id)
      && w'.requests[id].serial == w.requests[id].serial && w'.requests[id].urls == w.requests[id].urls
      && |w'.requests[id].fetches| == |w'.responses[id]| == |w.requests[id].urls|
      && (forall i :: 0 <= i < |w.requests[id].urls| && (id != p.id || i != p.i) ==>
            w'.requests[id].fetches[i] == w.requests[id].fetches[i] && w'.responses[id][i] == w.responses[id][i])
      && (forall a :: a in w.answers || (a in w'.answers && a != (w.requests[p.id].serial, p.i)) ==>
            a in w'.answers && (a != (w.requests[p.id].serial, p.i) ==> a in w.answers && w'.answers[a] == w.answers[a]))
      && (forall h :: h in w.outstanding && h != fetch && h < w.nextFetch ==>
            h in w'.outstanding && w'.outstanding[h] == w.outstanding[h])
  {
    hide SlotOk;
    assert SetOk(w, id) && SetOk(w, w.outstanding[fetch].id);
  }

  lemma SlotFrame(w: World, w': World, fetch: nat, id: nat, i: nat)
    requires FetchesOk(w) && fetch in w.outstanding
    requires id in w.requests && id in w.responses && SetOk(w, id) && i < |w.requests[id].urls|
    requires id in w'.requests && id in w'.responses
    requires w'.requests[id].serial == w.requests[id].serial && w'.requests[id].urls == w.requests[id].urls
    requires |w'.requests[id].fetches| == |w'.responses[id]| == |w.requests[id].urls|
    requires w'.requests[id].fetches[i] == w.requests[id].fetches[i] && w'.responses[id][i] == w.responses[id][i]
    requires var a := (w.requests[id].serial, i);
      (a in w'.answers <==> a in w.answers) && (a in w.answers ==> w'.answers[a] == w.answers[a])
    requires forall h :: h in w.outstanding && h != fetch && h < w.nextFetch ==>
      h in w'.outstanding && w'.outstanding[h] == w.outstanding[h]
    requires w.outstanding[fetch].id != id || w.outstanding[fetch].i != i
    ensures SlotOk(w', id, i)
  {
    assert SlotOk(w, id, i);
    if w.requests[id].fetches[i].Some? { assert FetchOk(w, w.requests[id].fetches[i].value); }
  }

  lemma RecordedSlot(w: World, fetch: nat, reply: Response, id: nat, i: nat)
    requires SetsOk(w) && FetchesOk(w) && SerialsOk(w) && fetch in w.outstanding && FetchOk(w, fetch)
    requires id in w.requests && i < |w.requests[id].urls|
    ensures var w' := Recorded(w, fetch, reply);
      && id in w'.requests && id in w'.responses
      && |w'.requests[id].fetches| == |w'.requests[id].urls| == |w'.responses[id]| == |w.requests[id].urls|
      && SlotOk(w', id, i)
  {
    hide SlotOk, SerialsOk, FetchesOk;
    RecordedShape(w, fetch, reply, id);
    if id == w.outstanding[fetch].id && i == w.outstanding[fetch].i {
      RecordedOwnSlot(w, fetch, reply);
    } else {
      RecordedOtherSlot(w, fetch, reply, id, i);
    }
  }

  lemma RecordKeepsSets(w: World, fetch: nat, reply: Response)
    requires Core(w) && fetch in w.outstanding && FetchOk(w, fetch)
    ensures SetsOk(Recorded(w, fetch, reply))
  {
    hide FetchesOk, FiredAllOk, AccountsOk, SerialsOk, SlotOk;
    var w' := Recorded(w, fetch, reply);
    forall id | id in w'.requests
      ensures SetOk(w', id)
    {
      assert SetOk(w, id);
      forall i | 0 <= i < |w.requests[id].urls|
        ensures SlotOk(w', id, i)
      {
        RecordedSlot(w, fetch, reply, id, i);
      }
      if |w.requests[id].urls| > 0 { RecordedSlot(w, fetch, reply, id, 0); }
    }
  }

  lemma RecordKeepsFetches(w: World, fetch: nat, reply: Response)
    requires Core(w) && fetch in w.outstanding && FetchOk(w, fetch)
    ensures FetchesOk(Recorded(w, fetch, reply))
  {
    hide SerialsOk, FiredAllOk, AccountsOk;
    var w' := Recorded(w, fetch, reply);
    forall h | h in w'.outstanding
      ensures FetchOk(w', h)
    {
      if h in w.outstanding { assert FetchOk(w, h); }
    }
  }

  lemma RecordKeepsOthers(w: World, fetch: nat, reply: Response)
    requires Core(w) && fetch in w.outstanding && FetchOk(w, fetch)
    ensures SerialsOk(Recorded(w, fetch, reply)) && FiredAllOk(Recorded(w, fetch, reply))
  {
    hide FetchesOk, AccountsOk, SlotOk;
    var w' := Recorded(w, fetch, reply);
    forall k | 0 <= k < |w'.fired|
      ensures FiredOk(w', w'.fired[k])
    {
      assert FiredOk(w, w.fired[k]);
    }
  }

  lemma RecordKeepsAccounts(w: World, fetch: nat, reply: Response)
    requires Core(w) && fetch in w.outstanding && FetchOk(w, fetch)
    ensures AccountsOk(Recorded(w, fetch, reply))
  {
    hide FetchesOk, FiredAllOk, SerialsOk, SlotOk;
    var w' := Recorded(w, fetch, reply);
    forall id | id in w'.requests
      ensures Fits(w', w'.requests[id])
    {
      assert Fits(w, w.requests[id]);
    }
    forall k | 0 <= k < |w'.fired|
      ensures FiredFits(w', w'.fired[k])
    {
      assert FiredFits(w, w.fired[k]);
    }
    forall n | 0 <= n < |w'.submitted| && w'.submitted[n].hasCallback && w'.submitted[n].urls != []
      ensures Live(w', n) || CalledBack(w', n)
    {
      if Live(w, n) {
        var id :| id in w.requests && w.requests[id].serial == n;
        assert id in w'.requests && w'.requests[id].serial == n;
      } else {
        var k :| 0 <= k < |w.fired| && w.fired[k].serial == n;
        assert w'.fired[k].serial == n;
      }
    }
  }

  // A complete set leaves with its callback.
  lemma FireKeepsInv(w: World, id: nat)
    requires Core(w) && id in w.requests && w.requests[id].urls != []
    requires forall id' :: id' in w.requests && id' != id ==> Waiting(w.requests[id'])
    ensures w.requests.Keys == w.responses.Keys && Inv(Fire(w, id))
  {
    hide SerialsOk, FiredAllOk, AccountsOk, SetOk, FetchOk, Waiting;
    if w.requests[id].hasCallback && AllAnswered(w.requests[id]) {
      RemoveKeepsSets(w, id, Fire(w, id));
      FireKeepsFired(w, id);
      FireKeepsSerials(w, id);
      FireKeepsAccounts(w, id);
    } else {
      StillWaiting(w, id);
    }
  }

  lemma StillWaiting(w: World, id: nat)
    requires SetsOk(w) && id in w.requests && !(w.requests[id].hasCallback && AllAnswered(w.requests[id]))
    ensures Waiting(w.requests[id])
  {
  }

  // Taking out a set without outstanding fetches.
  lemma RemoveKeepsSets(w: World, id: nat, w': World)
    requires SetsOk(w) && FetchesOk(w) && id in w.requests && AllAnswered(w.requests[id])
    requires w'.requests == w.requests - {id} && w'.responses == w.responses - {id}
    requires w'.outstanding == w.outstanding && w'.answers == w.answers
    requires w'.nextFetch == w.nextFetch && w'.submitted == w.submitted
    ensures SetsOk(w') && FetchesOk(w')
  {
    forall id' | id' in w'.requests
      ensures SetOk(w', id')
    {
      assert SetOk(w, id');
      forall i | 0 <= i < |w.requests[id'].urls|
        ensures SlotOk(w', id', i)
      {
        assert SlotOk(w, id', i);
      }
    }
    forall h | h in w'.outstanding
      ensures FetchOk(w', h)
    {
      assert FetchOk(w, h);
    }
  }

  lemma FireKeepsFired(w: World, id: nat)
    requires SetsOk(w) && FiredAllOk(w) && id in w.requests && w.requests[id].hasCallback && AllAnswered(w.requests[id])
    ensures FiredAllOk(Fire(w, id))
  {
    var w' := Fire(w, id);
    assert SetOk(w, id);
    forall i | 0 <= i < |w.responses[id]|
      ensures (w.requests[id].serial, i) in w.answers
      ensures w.answers[(w.requests[id].serial, i)] == w.responses[id][i]
      ensures w.responses[id][i].status != TOO_MANY_REQUESTS
    {
      assert SlotOk(w, id, i);
    }
    forall k | 0 <= k < |w'.fired|
      ensures FiredOk(w', w'.fired[k])
    {
      if k < |w.fired| { assert FiredOk(w, w.fired[k]); }
    }
  }

  lemma FireKeepsSerials(w: World, id: nat)
    requires SerialsOk(w) && id in w.requests && id in w.responses
    requires w.requests[id].hasCallback && AllAnswered(w.requests[id])
    ensures SerialsOk(Fire(w, id))
  {
  }

  lemma FireKeepsAccounts(w: World, id: nat)
    requires SetsOk(w) && AccountsOk(w) && id in w.requests && w.requests[id].urls != []
    requires w.requests[id].hasCallback && AllAnswered(w.requests[id])
    ensures AccountsOk(Fire(w, id))
  {
    var w' := Fire(w, id);
    assert SetOk(w, id) && Fits(w, w.requests[id]);
    forall id' | id' in w'.requests
      ensures Fits(w', w'.requests[id'])
    {
      assert Fits(w, w.requests[id']);
    }
    forall k | 0 <= k < |w'.fired|
      ensures FiredFits(w', w'.fired[k])
    {
      if k < |w.fired| { assert FiredFits(w, w.fired[k]); }
    }
    forall n | 0 <= n < |w'.submitted| && w'.submitted[n].hasCallback && w'.submitted[n].urls != []
      ensures Live(w', n) || CalledBack(w', n)
    {
      if w.requests[id].serial == n {
        assert w'.fired[|w.fired|].serial == n;
      } else if Live(w, n) {
        var id' :| id' in w.requests && w.requests[id'].serial == n;
        assert id' in w'.requests && w'.requests[id'].serial == n;
      } else {
        var k :| 0 <= k < |w.fired| && w.fired[k].serial == n;
        assert w'.fired[k].serial == n;
      }
    }
  }

  lemma CompleteKeepsInv(w: World, fetch: nat, reply: Response)
    requires Inv(w) && fetch in w.outstanding
    ensures Inv(Complete(w, fetch, reply))
  {
    hide SetsOk, FetchesOk, SerialsOk, FiredAllOk, AccountsOk, Waiting;
    CompleteIsRecordThenFire(w, fetch, reply);
    RecordKeepsSets(w, fetch, reply);
    RecordKeepsFetches(w, fetch, reply);
    RecordKeepsOthers(w, fetch, reply);
    RecordKeepsAccounts(w, fetch, reply);
    FireKeepsInv(Recorded(w, fetch, reply), w.outstanding[fetch].id);
  }

  // Under the invariant a reply always finds its set and its slot.
  lemma CompleteIsRecordThenFire(w: World, fetch: nat, reply: Response)
    requires Inv(w) && fetch in w.outstanding
    ensures FetchOk(w, fetch)
    ensures var w' := Recorded(w, fetch, reply); var id := w.outstanding[fetch].id;
      && id in w'.requests && id in w'.responses && w'.requests[id].urls != []
      && Complete(w, fetch, reply) == Fire(w', id)
      && (forall id' :: id' in w'.requests && id' != id ==> Waiting(w'.requests[id']))
  {
    hide SerialsOk, FiredAllOk, AccountsOk, Waiting, SlotOk;
    assert FetchOk(w, fetch);
    assert SetOk(w, w.outstanding[fetch].id);
  }

  // ----- Erasing a set that is not pending ----------------------------------

  predicate MayErase(w: World, id: nat)
  {
    id in w.requests ==> AllAnswered(w.requests[id])
  }

  lemma EraseKeepsInv(w: World, id: nat)
    requires Inv(w) && MayErase(w, id)
    ensures Inv(Erase(w, id))
  {
    hide SerialsOk, FiredAllOk, AccountsOk, SetOk, FetchOk;
    if id in w.requests {
      RemoveKeepsSets(w, id, Erase(w, id));
      EraseKeepsOthers(w, id);
    } else {
      assert w.requests - {id} == w.requests;
      assert w.responses - {id} == w.responses;
      assert Erase(w, id) == w;
    }
  }

  lemma EraseKeepsOthers(w: World, id: nat)
    requires Inv(w) && id in w.requests && AllAnswered(w.requests[id])
    ensures SerialsOk(Erase(w, id)) && FiredAllOk(Erase(w, id)) && AccountsOk(Erase(w, id))
  {
    var w' := Erase(w, id);
    assert SetOk(w, id) && Waiting(w.requests[id]) && Fits(w, w.requests[id]);
    forall k | 0 <= k < |w'.fired|
      ensures FiredOk(w', w'.fired[k]) && FiredFits(w', w'.fired[k])
    {
      assert FiredOk(w, w.fired[k]) && FiredFits(w, w.fired[k]);
    }
    forall id' | id' in w'.requests
      ensures Fits(w', w'.requests[id'])
    {
      assert Fits(w, w.requests[id']);
    }
    forall n | 0 <= n < |w'.submitted| && w'.submitted[n].hasCallback && w'.submitted[n].urls != []
      ensures Live(w', n) || CalledBack(w', n)
    {
      if Live(w, n) {
        var id' :| id' in w.requests && w.requests[id'].serial == n;
        assert Fits(w, w.requests[id']);
        assert id' in w'.requests && w'.requests[id'].serial == n;
      } else {
        var k :| 0 <= k < |w.fired| && w.fired[k].serial == n;
        assert w'.fired[k].serial == n;
      }
    }
  }

  // ----- Runs ---------------------------------------------------------------

  datatype Step =
    | SubmitStep(urls: seq<string>, hasCallback: bool)
    | CompleteStep(fetch: nat, reply: Response)
    | EraseStep(id: nat)

  predicate Possible(w: World, step: Step)
  {
    step.CompleteStep? ==> step.fetch in w.outstanding
  }

  predicate Enabled(w: World, step: Step)
  {
    Possible(w, step) && (step.EraseStep? ==> MayErase(w, step.id))
  }

  function Next(w: World, step: Step): World
    requires Possible(w, step)
  {
    match step
    case SubmitStep(urls, hasCallback) => Submit(w, urls, hasCallback)
    case CompleteStep(fetch, reply) => Complete(w, fetch, reply)
    case EraseStep(id) => Erase(w, id)
  }

  // The worlds of a run, one step after the other.
  ghost predicate IsRun(ws: seq<World>, steps: seq<Step>)
  {
    && |ws| == |steps| + 1 && ws[0] == START
    && forall k :: 0 <= k < |steps| ==> Enabled(ws[k], steps[k]) && ws[k + 1] == Next(ws[k], steps[k])
  }

  // Runs in which sets are erased at any time.
  ghost predicate IsAnyRun(ws: seq<World>, steps: seq<Step>)
  {
    && |ws| == |steps| + 1 && ws[0] == START
    && forall k :: 0 <= k < |steps| ==> Possible(ws[k], steps[k]) && ws[k + 1] == Next(ws[k], steps[k])
  }

  lemma StepKeepsInv(w: World, step: Step)
    requires Inv(w) && Enabled(w, step)
    ensures Inv(Next(w, step))
  {
    hide Inv;
    match step
    case SubmitStep(urls, hasCallback) => SubmitKeepsInv(w, urls, hasCallback);
    case CompleteStep(fetch, reply) => CompleteKeepsInv(w, fetch, reply);
    case EraseStep(id) => EraseKeepsInv(w, id);
  }

  lemma {:induction false} RunKeepsInv(ws: seq<World>, steps: seq<Step>, k: nat)
    requires IsRun(ws, steps) && k < |ws|
    ensures Inv(ws[k])
  {
    if k > 0 {
      RunKeepsInv(ws, steps, k - 1);
      StepKeepsInv(ws[k - 1], steps[k - 1]);
    }
  }

  // How often the callback of a set was made.
  function Calls(fired: seq<Fired>, serial: nat): (n: nat)
  {
    if |fired| == 0 then 0
    else Calls(fired[..|fired| - 1], serial) + if fired[|fired| - 1].serial == serial then 1 else 0
  }

  lemma {:induction false} CallsOfDistinct(fired: seq<Fired>, serial: nat)
    requires forall k, k' :: 0 <= k < k' < |fired| ==> fired[k].serial != fired[k'].serial
    ensures Calls(fired, serial) == if exists k :: 0 <= k < |fired| && fired[k].serial == serial then 1 else 0
  {
    if |fired| > 0 {
      var n := |fired| - 1;
      CallsOfDistinct(fired[..n], serial);
      if k :| 0 <= k < n && fired[k].serial == serial { assert fired[..n][k].serial == serial; }
    }
  }

  // In every run, at every moment: the callback of a set has been made once if
  // there is one, the set has at least one request, and the set is gone; and
  // else it has not been made at all.
  lemma CallbackExactlyOnce(ws: seq<World>, steps: seq<Step>, k: nat, serial: nat)
    requires IsRun(ws, steps) && k < |ws| && serial < |ws[k].submitted|
    ensures var set' := ws[k].submitted[serial];
      Calls(ws[k].fired, serial) == if set'.hasCallback && set'.urls != [] && !Live(ws[k], serial) then 1 else 0
  {
    hide SetsOk, FetchesOk, FiredAllOk;
    var w := ws[k];
    RunKeepsInv(ws, steps, k);
    CallsOfDistinct(w.fired, serial);
    if CalledBack(w, serial) {
      var j :| 0 <= j < |w.fired| && w.fired[j].serial == serial;
      assert FiredFits(w, w.fired[j]);
    }
  }

  // What stays true even if pending sets are erased: serial numbers are not
  // shared by live sets and callbacks.
  ghost predicate Apart(w: World)
  {
    && w.requests.Keys == w.responses.Keys
    && (forall id :: id in w.requests ==> w.requests[id].serial < |w.submitted|)
    && (forall k :: 0 <= k < |w.fired| ==> w.fired[k].serial < |w.submitted|)
    && (forall id, id' :: id in w.requests && id' in w.requests && id != id' ==>
          w.requests[id].serial != w.requests[id'].serial)
    && (forall k, id :: 0 <= k < |w.fired| && id in w.requests ==> w.fired[k].serial != w.requests[id].serial)
    && (forall k, k' :: 0 <= k < k' < |w.fired| ==> w.fired[k].serial != w.fired[k'].serial)
  }

  lemma StepKeepsApart(w: World, step: Step)
    requires Apart(w) && Possible(w, step)
    ensures Apart(Next(w, step))
  {
    hide Apart, Submit, Complete, Erase;
    match step
    case SubmitStep(urls, hasCallback) => SubmitKeepsApart(w, urls, hasCallback);
    case CompleteStep(fetch, reply) => CompleteKeepsApart(w, fetch, reply);
    case EraseStep(id) => EraseKeepsApart(w, id);
  }

  lemma SubmitKeepsApart(w: World, urls: seq<string>, hasCallback: bool)
    requires Apart(w)
    ensures Apart(Submit(w, urls, hasCallback))
  {
    hide Started, NewFetches, NoResponses;
  }

  lemma EraseKeepsApart(w: World, id: nat)
    requires Apart(w)
    ensures Apart(Erase(w, id))
  {
  }

  lemma CompleteKeepsApart(w: World, fetch: nat, reply: Response)
    requires Apart(w) && fetch in w.outstanding
    ensures Apart(Complete(w, fetch, reply))
  {
    hide Apart, Record, Fire;
    var p := w.outstanding[fetch];
    var w' := w.(outstanding := w.outstanding - {fetch});
    SameSerials(w, w');
    if p.id in w'.requests && p.id in w'.responses
       && p.i < |w'.requests[p.id].fetches| && p.i < |w'.responses[p.id]| {
      RecordKeepsApart(w', p, reply);
      FireKeepsApart(Record(w', p, reply), p.id);
    }
  }

  // Only the serial numbers matter.
  lemma SameSerials(w: World, w': World)
    requires Apart(w) && w'.requests.Keys == w.requests.Keys && w'.responses.Keys == w.responses.Keys
    requires forall id :: id in w.requests ==> w'.requests[id].serial == w.requests[id].serial
    requires w'.fired == w.fired && w'.submitted == w.submitted
    ensures Apart(w')
  {
  }

  lemma RecordKeepsApart(w: World, p: Pending, reply: Response)
    requires Apart(w) && p.id in w.requests && p.id in w.responses
    requires p.i < |w.requests[p.id].fetches| && p.i < |w.responses[p.id]|
    ensures var w' := Record(w, p, reply); Apart(w') && p.id in w'.requests && p.id in w'.responses
  {
    hide Apart;
    var w' := Record(w, p, reply);
    assert w'.requests.Keys == w.requests.Keys && w'.responses.Keys == w.responses.Keys;
    SameSerials(w, w');
  }

  lemma FireKeepsApart(w: World, id: nat)
    requires Apart(w) && id in w.requests && id in w.responses
    ensures Apart(Fire(w, id))
  {
    hide AllAnswered;
  }

  lemma {:induction false} AnyRunKeepsApart(ws: seq<World>, steps: seq<Step>, k: nat)
    requires IsAnyRun(ws, steps) && k < |ws|
    ensures Apart(ws[k])
  {
    hide Apart, Next;
    if k == 0 {
      NothingToShare();
    } else {
      AnyRunKeepsApart(ws, steps, k - 1);
      StepKeepsApart(ws[k - 1], steps[k - 1]);
    }
  }

  lemma NothingToShare()
    ensures Apart(START)
  {
  }

  // In every run, whatever is erased and when: the callback of a set is made at
  // most once, and not while the set is there.
  lemma CallbackAtMostOnce(ws: seq<World>, steps: seq<Step>, k: nat, serial: nat)
    requires IsAnyRun(ws, steps) && k < |ws|
    ensures Calls(ws[k].fired, serial) <= if Live(ws[k], serial) then 0 else 1
  {
    AnyRunKeepsApart(ws, steps, k);
    CallsOfDistinct(ws[k].fired, serial);
  }

  // ----- Erased sets ----------------------------------------------------------

  // Erasing a set takes it out of both maps and leaves everything else alone.
  lemma EraseForgets(w: World, id: nat)
    ensures var w' := Erase(w, id);
      && id !in w'.requests && id !in w'.responses
      && (forall other :: other != id ==>
            && (other in w'.requests <==> other in w.requests) && (other in w'.responses <==> other in w.responses)
            && (other in w.requests ==> w'.requests[other] == w.requests[other])
            && (other in w.responses ==> w'.responses[other] == w.responses[other]))
      && w'.outstanding == w.outstanding && w'.answers == w.answers && w'.fired == w.fired
      && w'.nextFetch == w.nextFetch && w'.submitted == w.submitted
  {
  }

  ghost predicate Gone(w: World, serial: nat)
  {
    serial < |w.submitted| && !Live(w, serial)
  }

  lemma CallsPush(fired: seq<Fired>, f: Fired, serial: nat)
    ensures Calls(fired + [f], serial) == Calls(fired, serial) + if f.serial == serial then 1 else 0
  {
    assert (fired + [f])[..|fired|] == fired;
  }

  // A set that is gone does not come back, and its callback is not made.
  lemma StepKeepsGone(w: World, step: Step, serial: nat)
    requires Apart(w) && Possible(w, step) && Gone(w, serial)
    ensures Gone(Next(w, step), serial) && Calls(Next(w, step).fired, serial) == Calls(w.fired, serial)
  {
    hide Calls;
    match step
    case SubmitStep(urls, hasCallback) => SubmitKeepsGone(w, urls, hasCallback, serial);
    case CompleteStep(fetch, reply) => CompleteKeepsGone(w, fetch, reply, serial);
    case EraseStep(id) => EraseKeepsGone(w, id, serial);
  }

  lemma SubmitKeepsGone(w: World, urls: seq<string>, hasCallback: bool, serial: nat)
    requires Gone(w, serial)
    ensures var w' := Submit(w, urls, hasCallback); Gone(w', serial) && w'.fired == w.fired
  {
    hide Started, NewFetches, NoResponses;
    var w' := Submit(w, urls, hasCallback);
    assert forall id :: id in w'.requests ==> w'.requests[id].serial == |w.submitted| || (id in w.requests && w'.requests[id] == w.requests[id]);
  }

  lemma EraseKeepsGone(w: World, id: nat, serial: nat)
    requires Gone(w, serial)
    ensures var w' := Erase(w, id); Gone(w', serial) && w'.fired == w.fired
  {
  }

  lemma CompleteKeepsGone(w: World, fetch: nat, reply: Response, serial: nat)
    requires fetch in w.outstanding && Gone(w, serial)
    ensures var w' := Complete(w, fetch, reply); Gone(w', serial) && Calls(w'.fired, serial) == Calls(w.fired, serial)
  {
    hide Calls, Gone, Record, Fire;
    var p := w.outstanding[fetch];
    var w' := w.(outstanding := w.outstanding - {fetch});
    GoneBySerials(w, w', serial);
    if p.id in w'.requests && p.id in w'.responses
       && p.i < |w'.requests[p.id].fetches| && p.i < |w'.responses[p.id]| {
      var recorded := Record(w', p, reply);
      RecordSerials(w', p, reply);
      GoneBySerials(w', recorded, serial);
      FireKeepsGone(recorded, p.id, serial);
    }
  }

  lemma RecordSerials(w: World, p: Pending, reply: Response)
    requires p.id in w.requests && p.id in w.responses
    requires p.i < |w.requests[p.id].fetches| && p.i < |w.responses[p.id]|
    ensures var w' := Record(w, p, reply);
      && w'.requests.Keys == w.requests.Keys && w'.responses.Keys == w.responses.Keys
      && (forall id :: id in w.requests ==> w'.requests[id].serial == w.requests[id].serial)
      && w'.fired == w.fired && w'.submitted == w.submitted
  {
  }

  lemma GoneBySerials(w: World, w': World, serial: nat)
    requires Gone(w, serial) && w'.requests.Keys == w.requests.Keys && w'.submitted == w.submitted
    requires forall id :: id in w.requests ==> w'.requests[id].serial == w.requests[id].serial
    ensures Gone(w', serial)
  {
  }

  lemma FireKeepsGone(w: World, id: nat, serial: nat)
    requires Gone(w, serial) && id in w.requests && id in w.responses
    ensures var w' := Fire(w, id); Gone(w', serial) && Calls(w'.fired, serial) == Calls(w.fired, serial)
  {
    hide AllAnswered, Calls;
    CallsPush(w.fired, Fired(w.requests[id].serial, w.responses[id]), serial);
  }

  lemma {:induction false} GoneForGood(ws: seq<World>, steps: seq<Step>, k: nat, j: nat, serial: nat)
    requires IsAnyRun(ws, steps) && k <= j < |ws| && Gone(ws[k], serial)
    ensures Gone(ws[j], serial) && Calls(ws[j].fired, serial) == Calls(ws[k].fired, serial)
  {
    hide Gone, Next, Calls;
    if k < j {
      GoneForGood(ws, steps, k, j - 1, serial);
      AnyRunKeepsApart(ws, steps, j - 1);
      StepKeepsGone(ws[j - 1], steps[j - 1], serial);
    }
  }

  // Once a live set is erased, in whatever run, its id is free in both maps, and
  // its callback is not made at any later moment.
  lemma ErasedIsNeverCalledBack(ws: seq<World>, steps: seq<Step>, k: nat, id: nat, j: nat)
    requires IsAnyRun(ws, steps) && k < |steps| && steps[k] == EraseStep(id) && id in ws[k].requests && k < j < |ws|
    ensures id !in ws[k + 1].requests && id !in ws[k + 1].responses
    ensures !Live(ws[j], ws[k].requests[id].serial) && Calls(ws[j].fired, ws[k].requests[id].serial) == 0
  {
    var serial := ws[k].requests[id].serial;
    AnyRunKeepsApart(ws, steps, k);
    assert Live(ws[k], serial);
    CallbackAtMostOnce(ws, steps, k, serial);
    hide Calls;
    assert ws[k + 1] == Erase(ws[k], id);
    ErasedIsGone(ws[k], id);
    GoneForGood(ws, steps, k + 1, j, serial);
  }

  lemma ErasedIsGone(w: World, id: nat)
    requires Apart(w) && id in w.requests
    ensures Gone(Erase(w, id), w.requests[id].serial) && Erase(w, id).fired == w.fired
  {
  }

  // ----- What a submission adds -----------------------------------------------

  // It succeeds exactly if no set has the number of live sets as its id, and
  // then adds a set with this id, whose requests are all under way.
  lemma SubmitAdds(w: World, urls: seq<string>, hasCallback: bool)
    requires w.requests.Keys == w.responses.Keys
    ensures var w', id := Submit(w, urls, hasCallback), |w.requests|;
      if id in w.requests then w' == w else
        && w'.requests.Keys == w.requests.Keys + {id} && w'.responses.Keys == w.responses.Keys + {id}
        && w'.requests[id].urls == urls && w'.requests[id].hasCallback == hasCallback
        && w'.requests[id].serial == |w.submitted| && w'.submitted == w.submitted + [Submission(urls, hasCallback)]
        && |w'.requests[id].fetches| == |w'.responses[id]| == |urls|
        && w'.fired == w.fired && w'.answers == w.answers && w'.nextFetch == w.nextFetch + |urls|
  {
    hide Started;
    if CanSubmit(w) { SubmittedParts(w, urls, hasCallback); }
    hide NewFetches, NoResponses;
  }

  // The slots of the set hold its fetches, and no responses yet.
  lemma SubmitFillsSlots(w: World, urls: seq<string>, hasCallback: bool, i: nat)
    requires |w.requests| !in w.requests && |w.requests| !in w.responses && i < |urls|
    ensures var w', id := Submit(w, urls, hasCallback), |w.requests|;
      && id in w'.requests && id in w'.responses && i < |w'.requests[id].fetches| && i < |w'.responses[id]|
      && w'.requests[id].fetches[i] == Some(w.nextFetch + i) && w'.responses[id][i] == NO_RESPONSE
  {
    SubmittedParts(w, urls, hasCallback);
    hide Started, Submit;
  }

  // Its fetches are those of its requests; nothing else is added.
  lemma SubmitFetches(w: World, urls: seq<string>, hasCallback: bool, h: nat)
    requires |w.requests| !in w.requests && |w.requests| !in w.responses
    ensures var w' := Submit(w, urls, hasCallback);
      && (h in w'.outstanding <==> h in w.outstanding || w.nextFetch <= h < w.nextFetch + |urls|)
      && (w.nextFetch <= h < w.nextFetch + |urls| ==>
            w'.outstanding[h] == Pending(|w.requests|, h - w.nextFetch, urls[h - w.nextFetch]))
  {
    hide Started;
  }

  // Once the browser has nothing under way, every callback has been made.
  lemma NothingLeftBehind(ws: seq<World>, steps: seq<Step>, k: nat, serial: nat)
    requires IsRun(ws, steps) && k < |ws| && ws[k].outstanding == map[]
    requires serial < |ws[k].submitted| && ws[k].submitted[serial].hasCallback && ws[k].submitted[serial].urls != []
    ensures Calls(ws[k].fired, serial) == 1
  {
    hide SerialsOk, FiredAllOk, FetchesOk;
    var w := ws[k];
    CallbackExactlyOnce(ws, steps, k, serial);
    RunKeepsInv(ws, steps, k);
    if Live(w, serial) {
      var id :| id in w.requests && w.requests[id].serial == serial;
      assert SetOk(w, id) && Fits(w, w.requests[id]) && Waiting(w.requests[id]);
      UnansweredIsOutstanding(w, id);
    }
  }

  lemma UnansweredIsOutstanding(w: World, id: nat)
    requires id in w.requests && id in w.responses && SetOk(w, id) && !AllAnswered(w.requests[id])
    ensures w.outstanding != map[]
  {
    var i :| 0 <= i < |w.requests[id].fetches| && w.requests[id].fetches[i] != None;
    assert SlotOk(w, id, i);
  }

  // What a callback passes on: one answer for each request, in their order.
  lemma CallbackAnswers(ws: seq<World>, steps: seq<Step>, k: nat, j: nat)
    requires IsRun(ws, steps) && k < |ws| && j < |ws[k].fired|
    ensures var f := ws[k].fired[j];
      && f.serial < |ws[k].submitted| && |f.responses| == |ws[k].submitted[f.serial].urls|
      && forall i :: 0 <= i < |f.responses| ==>
           && (f.serial, i) in ws[k].answers && f.responses[i] == ws[k].answers[(f.serial, i)]
           && f.responses[i].status != TOO_MANY_REQUESTS
  {
    RunKeepsInv(ws, steps, k);
    assert FiredOk(ws[k], ws[k].fired[j]) && FiredFits(ws[k], ws[k].fired[j]);
  }

  // Every unanswered request of a live set has exactly one outstanding fetch,
  // for its own address.
  lemma OneFetchPerSlot(ws: seq<World>, steps: seq<Step>, k: nat, id: nat, i: nat)
    requires IsRun(ws, steps) && k < |ws|
    requires id in ws[k].requests && i < |ws[k].requests[id].urls|
    ensures var w := ws[k]; var s := w.requests[id];
      && i < |s.fetches|
      && forall h :: h in w.outstanding && w.outstanding[h].id == id && w.outstanding[h].i == i
           <==> s.fetches[i] == Some(h)
    ensures var w := ws[k]; var s := w.requests[id];
      s.fetches[i].Some? ==> s.fetches[i].value in w.outstanding && w.outstanding[s.fetches[i].value].url == s.urls[i]
  {
    RunKeepsInv(ws, steps, k);
    var w := ws[k];
    assert SetOk(w, id) && SlotOk(w, id, i);
    forall h | h in w.outstanding
      ensures FetchOk(w, h)
    {
    }
  }

  // A reply makes the callback in the step that clears the last slot of its
  // set, and in no other; a 429 keeps the slot waiting with a new fetch.
  lemma FiresWithLastAnswer(w: World, fetch: nat, reply: Response)
    requires Inv(w) && fetch in w.outstanding
    ensures var p := w.outstanding[fetch]; var w' := Complete(w, fetch, reply);
      && p.id in w.requests && p.i < |w.requests[p.id].fetches|
      && var s := w.requests[p.id];
         var last := forall i :: 0 <= i < |s.fetches| && i != p.i ==> s.fetches[i] == None;
         if reply.status == TOO_MANY_REQUESTS then
           && w'.fired == w.fired && p.id in w'.requests
           && w'.requests[p.id] == s.(fetches := s.fetches[p.i := Some(w.nextFetch)])
           && w.nextFetch in w'.outstanding && w'.outstanding[w.nextFetch] == p
         else if s.hasCallback && last then
           && w'.fired == w.fired + [Fired(s.serial, w.responses[p.id][p.i := Response(reply.status, reply.headers, reply.body)])]
           && p.id !in w'.requests
         else
           && w'.fired == w.fired && p.id in w'.requests && p.id in w'.responses
           && w'.requests[p.id] == s.(fetches := s.fetches[p.i := None])
           && w'.responses[p.id] == w.responses[p.id][p.i := Response(reply.status, reply.headers, reply.body)]
  {
    hide SetsOk, FetchesOk, SerialsOk, FiredAllOk, AccountsOk, Waiting;
    CompleteIsRecordThenFire(w, fetch, reply);
    RecordedByReply(w, fetch, reply);
    var s := w.requests[w.outstanding[fetch].id];
    var i := w.outstanding[fetch].i;
    var now := Recorded(w, fetch, reply).requests[w.outstanding[fetch].id];
    assert now.fetches[i] == if reply.status == TOO_MANY_REQUESTS then Some(w.nextFetch) else None;
    assert forall j :: 0 <= j < |s.fetches| && j != i ==> now.fetches[j] == s.fetches[j];
  }

  lemma RecordedByReply(w: World, fetch: nat, reply: Response)
    requires Inv(w) && fetch in w.outstanding && FetchOk(w, fetch)
    ensures var p := w.outstanding[fetch]; var w' := Recorded(w, fetch, reply);
      && p.id in w.responses && p.i < |w.responses[p.id]|
      && p.id in w'.requests && p.id in w'.responses && w'.fired == w.fired
      && (if reply.status == TOO_MANY_REQUESTS then
            && w'.requests[p.id] == w.requests[p.id].(fetches := w.requests[p.id].fetches[p.i := Some(w.nextFetch)])
            && w.nextFetch in w'.outstanding && w'.outstanding[w.nextFetch] == p
          else
            && w'.requests[p.id] == w.requests[p.id].(fetches := w.requests[p.id].fetches[p.i := None])
            && w'.responses[p.id] == w.responses[p.id][p.i := Response(reply.status, reply.headers, reply.body)])
  {
    hide SerialsOk, FiredAllOk, AccountsOk, Waiting;
    var p := w.outstanding[fetch];
    assert SetOk(w, p.id) && SlotOk(w, p.id, p.i);
    assert map[] + reply.headers == reply.headers;
  }

  // A reply concerns its own set and fetch only.
  lemma CompleteFrame(w: World, fetch: nat, reply: Response, id: nat, h: nat)
    requires Inv(w) && fetch in w.outstanding
    ensures var w' := Complete(w, fetch, reply);
      && (id != w.outstanding[fetch].id ==>
            && (id in w'.requests <==> id in w.requests) && (id in w.requests ==> w'.requests[id] == w.requests[id])
            && (id in w'.responses <==> id in w.responses) && (id in w.responses ==> w'.responses[id] == w.responses[id]))
      && (h != w.nextFetch ==> (h in w'.outstanding <==> h in w.outstanding && h != fetch))
      && (h in w.outstanding && h != fetch ==> w'.outstanding[h] == w.outstanding[h])
      && w'.submitted == w.submitted
  {
    hide SetsOk, SerialsOk, FiredAllOk, AccountsOk, Waiting, AllAnswered;
    if h in w.outstanding { assert FetchOk(w, h); }
  }

  // A reply for a set that has been erased changes nothing but the fetch.
  lemma LateReplyIsIgnored(w: World, fetch: nat, reply: Response)
    requires fetch in w.outstanding && w.outstanding[fetch].id !in w.requests
    ensures Complete(w, fetch, reply) == w.(outstanding := w.outstanding - {fetch})
  {
  }

  // ----- When a submission fails --------------------------------------------

  // Sets that are numbered without gaps leave the next id free.
  lemma DenseIdsSubmit(w: World)
    requires w.requests.Keys == w.responses.Keys
    requires forall id :: id in w.requests <==> 0 <= id < |w.requests|
    ensures CanSubmit(w)
  {
  }

  // Two sets are submitted and the first one completes: the next id is taken by
  // the second one, and the submission of a third set fails.
  lemma SubmitAfterCompletionFails(url: string)
    ensures var w := TwoSubmitted(url);
      && Inv(w) && 0 in w.outstanding
      && !CanSubmit(Complete(w, 0, Response(200, map[], "")))
  {
    hide Inv;
    InvAtStart();
    SubmitKeepsInv(START, [url], true);
    FirstSubmission(url);
    SubmitKeepsInv(Submit(START, [url], true), [url], true);
    FirstCompletes(url);
  }

  function TwoSubmitted(url: string): World
  {
    Submit(Submit(START, [url], true), [url], true)
  }

  lemma FirstSubmission(url: string)
    ensures var w := Submit(START, [url], true);
      && w == World(map[0 := Tracked(0, [url], [Some(0)], true)], map[0 := [NO_RESPONSE]],
                    map[0 := Pending(0, 0, url)], map[], [], 1, [Submission([url], true)])
  {
    assert Started(START.outstanding, 0, 0, [url][..0]) == map[];
    assert Started(START.outstanding, 0, 0, [url]) == map[0 := Pending(0, 0, url)];
    assert NewFetches(0, 1) == [Some(0)] && NoResponses(1) == [NO_RESPONSE];
    assert |START.requests| == 0 && 0 !in START.requests;
    assert [] + [Submission([url], true)] == [Submission([url], true)];
  }

  lemma SecondSubmission(url: string)
    ensures var w := TwoSubmitted(url);
      && w.requests == map[0 := Tracked(0, [url], [Some(0)], true), 1 := Tracked(1, [url], [Some(1)], true)]
      && w.responses == map[0 := [NO_RESPONSE], 1 := [NO_RESPONSE]]
      && 0 in w.outstanding && w.outstanding[0] == Pending(0, 0, url)
  {
    FirstSubmission(url);
    hide Started;
    var w := Submit(START, [url], true);
    assert w.requests.Keys == {0};
    assert |w.requests| == |w.requests.Keys|;
    assert NewFetches(1, 1) == [Some(1)];
  }

  lemma FirstCompletes(url: string)
    ensures var w := TwoSubmitted(url);
      0 in w.outstanding && !CanSubmit(Complete(w, 0, Response(200, map[], "")))
  {
    SecondSubmission(url);
    hide Submit, TwoSubmitted;
    var w := TwoSubmitted(url);
    var w' := Complete(w, 0, Response(200, map[], ""));
    assert w'.requests.Keys == {1};
    assert |w'.requests| == |w'.requests.Keys|;
  }

  // A set is erased while its fetch is outstanding, and the next set gets its
  // id: the late reply is taken for the answer to the new set, whose callback is
  // made with it.
  lemma StaleReplyAnswersLaterSet(url: string, url': string, reply: Response)
    requires url != url' && reply.status != TOO_MANY_REQUESTS
    ensures var w := Submit(Erase(Submit(START, [url], true), 0), [url'], true);
      && 0 in w.outstanding && w.outstanding[0].url == url
      && w.submitted[1].urls == [url']
      && Complete(w, 0, reply).fired == [Fired(1, [Response(reply.status, reply.headers, reply.body)])]
  {
    FirstSubmission(url);
    var w0 := Erase(Submit(START, [url], true), 0);
    assert w0.requests == map[] && w0.responses == map[];
    SubmittedAgain(w0, url');
    hide Submit;
    SingleAnswer(Submit(w0, [url'], true), 1, url', reply);
  }

  // The answer to a set of one request is passed on at once.
  lemma SingleAnswer(w: World, serial: nat, url: string, reply: Response)
    requires 0 in w.outstanding && w.outstanding[0].id == 0 && w.outstanding[0].i == 0
    requires 0 in w.requests && w.requests[0] == Tracked(serial, [url], [Some(1)], true)
    requires 0 in w.responses && w.responses[0] == [NO_RESPONSE] && w.fired == [] && reply.status != TOO_MANY_REQUESTS
    ensures Complete(w, 0, reply).fired == [Fired(serial, [Response(reply.status, reply.headers, reply.body)])]
  {
    var answer := Response(reply.status, reply.headers, reply.body);
    assert map[] + reply.headers == reply.headers;
    assert [NO_RESPONSE][0 := answer] == [answer];
    assert [Some(1)][0 := None] == [None];
  }

  lemma SubmittedAgain(w: World, url: string)
    requires w.requests == map[] && w.responses == map[] && w.nextFetch == 1 && |w.submitted| == 1 && w.fired == []
    requires w.outstanding.Keys == {0}
    ensures var w' := Submit(w, [url], true);
      && w'.requests == map[0 := Tracked(1, [url], [Some(1)], true)] && w'.responses == map[0 := [NO_RESPONSE]]
      && 0 in w'.outstanding && w'.outstanding[0] == w.outstanding[0]
      && w'.submitted == w.submitted + [Submission([url], true)] && w'.fired == []
  {
    hide Started;
    assert |w.requests| == 0;
    assert NewFetches(1, 1) == [Some(1)] && NoResponses(1) == [NO_RESPONSE];
  }

  lemma InvAtStart()
    ensures Inv(START)
  {
  }
}
