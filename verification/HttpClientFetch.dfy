// The tracker of asynchronous requests, in place. Its steps are those of
// FetchTracking, which proves what they keep.
module HttpClientFetch {
  import opened Options
  import opened FetchTracking

  class FetchTracker {
    var requests: map<nat, Tracked>
    var responses: map<nat, seq<Response>>

    // The fetches that the browser has under way.
    var outstanding: map<nat, Pending>
    var nextFetch: nat

    // What has happened so far; nothing that the tracker does depends on it.
    var answers: map<(nat, nat), Response>
    var fired: seq<Fired>
    var submitted: seq<Submission>

    ghost function State(): World
      reads this
    {
      World(requests, responses, outstanding, answers, fired, nextFetch, submitted)
    }

    constructor ()
      ensures State() == START && Inv(State())
    {
      requests, responses, outstanding, nextFetch := map[], map[], map[], 0;
      answers, fired, submitted := map[], [], [];
      new;
      InvAtStart();
    }

    method MakeFetch(id: nat, i: nat, url: string) returns (fetch: nat)
      modifies this`outstanding, this`nextFetch
      ensures fetch == old(nextFetch)
      ensures nextFetch == old(nextFetch) + 1
      ensures outstanding == old(outstanding)[fetch := Pending(id, i, url)]
    {
      fetch := nextFetch;
      outstanding := outstanding[fetch := Pending(id, i, url)];
      nextFetch := nextFetch + 1;
    }

    method StartFetches(id: nat, urls: seq<string>)
      requires id in requests && requests[id].fetches == []
      modifies this`requests, this`outstanding, this`nextFetch
      ensures requests == old(requests)[id := old(requests[id]).(fetches := NewFetches(old(nextFetch), |urls|))]
      ensures outstanding == Started(old(outstanding), id, old(nextFetch), urls)
      ensures nextFetch == old(nextFetch) + |urls|
    {
      var i := 0;
      while i < |urls|
        invariant 0 <= i <= |urls|
        invariant id in requests
        invariant requests == old(requests)[id := old(requests[id]).(fetches := NewFetches(old(nextFetch), i))]
        invariant outstanding == Started(old(outstanding), id, old(nextFetch), urls[..i])
        invariant nextFetch == old(nextFetch) + i
      {
        assert urls[..i + 1][..i] == urls[..i];
        var fetch := MakeFetch(id, i, urls[i]);
        assert NewFetches(old(nextFetch), i) + [Some(fetch)] == NewFetches(old(nextFetch), i + 1);
        requests := requests[id := requests[id].(fetches := requests[id].fetches + [Some(fetch)])];
        i := i + 1;
      }
      assert urls[..i] == urls;
    }

    // None stands for the exception that the source throws.
    method SubmitSet(urls: seq<string>, hasCallback: bool) returns (id: Option<nat>)
      modifies this
      ensures id == if CanSubmit(old(State())) then Some(|old(requests)|) else None
      ensures State() == Submit(old(State()), urls, hasCallback)
      ensures Inv(old(State())) ==> Inv(State())
    {
      hide Inv, Started;
      ghost var was := State();
      if Inv(was) { SubmitKeepsInv(was, urls, hasCallback); }
      var key := |requests|;
      if key in requests { return None; }
      requests := requests[key := Tracked(|submitted|, urls, [], false)];
      if key in responses { return None; }
      responses := responses[key := NoResponses(|urls|)];
      StartFetches(key, urls);
      requests := requests[key := requests[key].(hasCallback := hasCallback)];
      submitted := submitted + [Submission(urls, hasCallback)];
      id := Some(key);
    }

    method MustRetry(reply: Response, id: nat, i: nat) returns (retry: bool)
      requires id in responses && i < |responses[id]|
      modifies this`responses
      ensures retry == (reply.status == TOO_MANY_REQUESTS)
      ensures responses == if retry then old(responses)[id := old(responses[id])[i := NO_RESPONSE]] else old(responses)
    {
      retry := reply.status == TOO_MANY_REQUESTS;
      if retry {
        responses := responses[id := responses[id][i := NO_RESPONSE]];
      }
    }

    method IsComplete(id: nat) returns (done: bool)
      ensures done <==> id in requests && AllAnswered(requests[id])
    {
      if id !in requests { return false; }
      var fetches := requests[id].fetches;
      var i := 0;
      while i < |fetches|
        invariant 0 <= i <= |fetches|
        invariant forall j :: 0 <= j < i ==> fetches[j] == None
      {
        if fetches[i] != None { return false; }
        i := i + 1;
      }
      done := true;
    }

    // The report of a fetch that the browser had under way. The browser hands
    // over the set and the request that the fetch was started for.
    method CompleteFetch(fetch: nat, reply: Response)
      requires fetch in outstanding
      modifies this
      ensures State() == Complete(old(State()), fetch, reply)
      ensures Inv(old(State())) ==> Inv(State())
    {
      hide Inv;
      ghost var was := State();
      if Inv(was) { CompleteKeepsInv(was, fetch, reply); }
      var p := outstanding[fetch];
      outstanding := outstanding - {fetch};
      if p.id in requests && p.id in responses && p.i < |requests[p.id].fetches| && p.i < |responses[p.id]| {
        ghost var before := State();
        var retry := MustRetry(reply, p.id, p.i);
        var slot: Option<nat> := None;
        if retry {
          var again := MakeFetch(p.id, p.i, p.url);
          slot := Some(again);
        } else {
          var answer := Response(reply.status, responses[p.id][p.i].headers + reply.headers, reply.body);
          responses := responses[p.id := responses[p.id][p.i := answer]];
          answers := answers[(requests[p.id].serial, p.i) := answer];
        }
        requests := requests[p.id := requests[p.id].(fetches := requests[p.id].fetches[p.i := slot])];
        assert State() == Record(before, p, reply);
        var done := IsComplete(p.id);
        if requests[p.id].hasCallback && done {
          fired := fired + [Fired(requests[p.id].serial, responses[p.id])];
          requests := requests - {p.id};
          responses := responses - {p.id};
        }
      }
    }

    method EraseSet(id: nat)
      modifies this
      ensures State() == Erase(old(State()), id)
      ensures Inv(old(State())) && MayErase(old(State()), id) ==> Inv(State())
    {
      ghost var was := State();
      if Inv(was) && MayErase(was, id) { EraseKeepsInv(was, id); }
      requests := requests - {id};
      responses := responses - {id};
    }
  }
}
