/**
  The one Qdrant collection the pipeline writes to, as the wrapper in
  `common/qdrant_client.py` presents it: every call either does its work or,
  where the server would raise, reports failure the wrapper's way (`False`
  for writes, `(None, None)` for a scroll). The server is in memory: a flag
  for whether the collection exists, its vector size, its points in
  insertion order, and the requests made so far.
*/
module VectorStore {
  import opened Wrappers
  import opened Documents

  /** A stored point: its vector and its payload `{"text": ..., "metadata": ...}`. */
  datatype Point = Point(vector: seq<real>, text: string, metadata: Metadata)

  /** What a scroll returns: the page of points and the offset of the next
      match (the position of the first match left out), or `(None, None)`
      when the call failed. */
  datatype ScrollResponse = ScrollResponse(points: Option<seq<Point>>, nextOffset: Option<nat>)

  /** A request sent to the server. */
  datatype Request =
    | DeleteCollection
    | CreateCollection(size: nat)
    | Scroll(sha256: string, limit: nat)
    | Upsert(points: seq<Point>, wait: bool)

  datatype StoreState = StoreState(present: bool, size: nat, points: seq<Point>, requests: seq<Request>)

  /** The filter `metadata.sha256 == hash` on one point. */
  predicate HasHash(p: Point, hash: string) {
    "sha256" in p.metadata && p.metadata["sha256"] == Str(hash)
  }

  /** The stored points that pass the filter, in storage order. */
  function Matching(points: seq<Point>, hash: string): (r: seq<Point>)
    ensures |r| <= |points|
    ensures forall k :: 0 <= k < |r| ==> HasHash(r[k], hash)
    ensures r == [] <==> forall k :: 0 <= k < |points| ==> !HasHash(points[k], hash)
  {
    if points == [] then []
    else if HasHash(points[0], hash) then [points[0]] + Matching(points[1..], hash)
    else Matching(points[1..], hash)
  }

  /** `scroll_collection(filter=sha256 == hash, limit=limit)`: on a missing
      collection the server raises and the wrapper returns `(None, None)`. */
  function ScrollResult(s: StoreState, hash: string, limit: nat): (r: ScrollResponse)
    ensures !s.present <==> r == ScrollResponse(None, None)
    ensures s.present ==> r.points.Some? && |r.points.value| <= limit
    ensures s.present ==> |r.points.value| <= |Matching(s.points, hash)|
    ensures s.present ==> r.points.value == Matching(s.points, hash)[..|r.points.value|]
    ensures s.present ==> (r.nextOffset.Some? <==> |r.points.value| < |Matching(s.points, hash)|)
  {
    if !s.present then ScrollResponse(None, None)
    else
      var all := Matching(s.points, hash);
      if |all| <= limit then ScrollResponse(Some(all), None)
      else ScrollResponse(Some(all[..limit]), Some(limit))
  }

  /** Whether the server accepts an upsert: the collection exists and every
      vector has the collection's size. */
  predicate Accepts(s: StoreState, points: seq<Point>) {
    s.present && forall k :: 0 <= k < |points| ==> |points[k].vector| == s.size
  }

  /** The state after `upsert_points(points, wait)`: every point carries a
      fresh random id, so an accepted upsert appends. */
  function AfterUpsert(s: StoreState, points: seq<Point>, wait: bool): StoreState {
    var logged := s.(requests := s.requests + [Upsert(points, wait)]);
    if Accepts(s, points) then logged.(points := s.points + points) else logged
  }

  function AfterDelete(s: StoreState): StoreState {
    StoreState(false, s.size, [], s.requests + [DeleteCollection])
  }

  /** `create_collection(name, size)`: the server refuses to create a
      collection that already exists. */
  function AfterCreate(s: StoreState, size: nat): StoreState {
    var logged := s.(requests := s.requests + [CreateCollection(size)]);
    if s.present then logged else logged.(present := true, size := size, points := [])
  }

  function AfterScroll(s: StoreState, hash: string, limit: nat): StoreState {
    s.(requests := s.requests + [Scroll(hash, limit)])
  }

  /** The client wrapper together with the server behind it. */
  class Store {
    var present: bool
    var size: nat
    var points: seq<Point>
    var requests: seq<Request>

    function State(): StoreState
      reads this
    {
      StoreState(present, size, points, requests)
    }

    constructor (s: StoreState)
      ensures State() == s
    {
      present, size, points, requests := s.present, s.size, s.points, s.requests;
    }

    method DeleteCollection() returns (ok: bool)
      modifies this
      ensures ok && State() == AfterDelete(old(State()))
    {
      present, points := false, [];
      requests := requests + [Request.DeleteCollection];
      ok := true;
    }

    method CreateCollection(vectorSize: nat) returns (ok: bool)
      modifies this
      ensures ok == !old(present)
      ensures State() == AfterCreate(old(State()), vectorSize)
    {
      requests := requests + [Request.CreateCollection(vectorSize)];
      if present {
        return false;
      }
      present, size, points := true, vectorSize, [];
      ok := true;
    }

    method ScrollCollection(hash: string, limit: nat) returns (response: ScrollResponse)
      modifies this
      ensures response == ScrollResult(old(State()), hash, limit)
      ensures State() == AfterScroll(old(State()), hash, limit)
    {
      response := ScrollResult(State(), hash, limit);
      requests := requests + [Request.Scroll(hash, limit)];
    }

    method UpsertPoints(newPoints: seq<Point>, wait: bool) returns (ok: bool)
      modifies this
      ensures ok == Accepts(old(State()), newPoints)
      ensures State() == AfterUpsert(old(State()), newPoints, wait)
    {
      ok := Accepts(State(), newPoints);
      requests := requests + [Request.Upsert(newPoints, wait)];
      if ok {
        points := points + newPoints;
      }
    }
  }

  /** Filtering distributes over appending. */
  lemma {:induction false} MatchingAppend(a: seq<Point>, b: seq<Point>, hash: string)
    ensures Matching(a + b, hash) == Matching(a, hash) + Matching(b, hash)
  {
    if a != [] {
      assert (a + b)[1..] == a[1..] + b;
      MatchingAppend(a[1..], b, hash);
    } else {
      assert a + b == b;
    }
  }
}
