/**
 * The non-visual logic of the wayfinder's main screen: the search box that
 * highlights points of interest, and the forward/backward step buttons that move
 * the walker along a found route.
 */
module App {
  import opened Types

  // ---------------------------------------------------------------------------
  // Case folding (ASCII letters only)

  function LowerChar(c: char): (l: char)
    ensures 'A' <= c <= 'Z' ==> 'a' <= l <= 'z' && l as int - c as int == 'a' as int - 'A' as int
    ensures !('A' <= c <= 'Z') ==> l == c
  {
    if 'A' <= c <= 'Z' then (c as int - 'A' as int + 'a' as int) as char else c
  }

  /** String.prototype.toLowerCase: the same length, no upper-case letter left. */
  function ToLower(s: string): (r: string)
    ensures |r| == |s|
    ensures forall i :: 0 <= i < |s| ==> r[i] == LowerChar(s[i])
    ensures forall i :: 0 <= i < |r| ==> !('A' <= r[i] <= 'Z')
  {
    seq(|s|, i requires 0 <= i < |s| => LowerChar(s[i]))
  }

  lemma ToLowerIdempotent(s: string)
    ensures ToLower(ToLower(s)) == ToLower(s)
  {
    var l := ToLower(s);
    assert forall i :: 0 <= i < |l| ==> LowerChar(l[i]) == l[i];
  }

  /** A string containing no upper-case letter is its own lower-case form. */
  lemma LowerCaseFixed(s: string)
    requires forall i :: 0 <= i < |s| ==> !('A' <= s[i] <= 'Z')
    ensures ToLower(s) == s
  {
  }

  /** A POI type's string value is already lower-case, which is why the filter can
      search it without folding it first. */
  lemma TypeValueIsLowerCase(t: POIType)
    ensures ToLower(TypeValue(t)) == TypeValue(t)
  {
    LowerCaseFixed(TypeValue(t));
  }

  // ---------------------------------------------------------------------------
  // Substring search

  /** q occurs in s starting at offset i. */
  predicate OccursAt(s: string, q: string, i: int)
  {
    0 <= i && i + |q| <= |s| && s[i..i + |q|] == q
  }

  /** String.prototype.includes: q occurs in s at some offset (the empty string
      occurs everywhere). */
  function Includes(s: string, q: string): (r: bool)
    ensures r <==> exists i :: OccursAt(s, q, i)
    decreases |s|
  {
    if |q| > |s| then false
    else if s[..|q|] == q then assert OccursAt(s, q, 0); true
    else
      var r := Includes(s[1..], q);
      assert r ==> exists i :: OccursAt(s, q, i) by {
        if r {
          var i :| OccursAt(s[1..], q, i);
          assert s[i + 1..i + 1 + |q|] == s[1..][i..i + |q|];
          assert OccursAt(s, q, i + 1);
        }
      }
      assert (exists i :: OccursAt(s, q, i)) ==> r by {
        if exists i :: OccursAt(s, q, i) {
          var i :| OccursAt(s, q, i);
          assert i != 0;
          assert s[1..][i - 1..i - 1 + |q|] == s[i..i + |q|];
          assert OccursAt(s[1..], q, i - 1);
        }
      }
      r
  }

  /** Occurrence is transitive: a string containing q2 contains everything q2 contains. */
  lemma IncludesTransitive(s: string, q2: string, q1: string)
    requires Includes(s, q2) && Includes(q2, q1)
    ensures Includes(s, q1)
  {
    var i :| OccursAt(s, q2, i);
    var j :| OccursAt(q2, q1, j);
    forall k | 0 <= k < |q1|
      ensures s[i + j..i + j + |q1|][k] == q1[k]
    {
      assert s[i..i + |q2|][j + k] == q2[j + k];
      assert q2[j..j + |q1|][k] == q2[j + k];
    }
    assert s[i + j..i + j + |q1|] == q1;
    assert OccursAt(s, q1, i + j);
  }

  lemma NothingIncludedInEmpty(q: string)
    requires q != []
    ensures !Includes([], q)
  {
  }

  // ---------------------------------------------------------------------------
  // Search highlighting

  /** The string a POI's type contributes to the search; an untyped POI contributes ''. */
  function TypeString(t: Option<POIType>): (s: string)
    ensures t.None? <==> s == []
  {
    match t
    case None => ""
    case Some(v) => TypeValue(v)
  }

  /** A POI matches a lower-cased query through its lower-cased name or its type value. */
  predicate Matches(poi: POI, query: string)
  {
    Includes(ToLower(poi.name), query) || Includes(TypeString(poi.poiType), query)
  }

  /** The ids the highlight effect should publish for a search box content. */
  ghost function Highlight(pois: seq<POI>, searchQuery: string): set<string>
  {
    var query := ToLower(searchQuery);
    if query == [] then {}
    else set i | 0 <= i < |pois| && Matches(pois[i], query) :: pois[i].id
  }

  /** The highlight effect: an empty query clears the set; otherwise every POI whose
      name or type contains the lower-cased query has its id added. */
  method HighlightedPoiIds(pois: seq<POI>, searchQuery: string) returns (highlighted: set<string>)
    ensures highlighted == Highlight(pois, searchQuery)
  {
    var query := ToLower(searchQuery);
    if query == [] {
      return {};
    }
    highlighted := {};
    for k := 0 to |pois|
      invariant highlighted == set i | 0 <= i < k && Matches(pois[i], query) :: pois[i].id
    {
      var poi := pois[k];
      var poiName := ToLower(poi.name);
      var poiType := TypeString(poi.poiType);
      if Includes(poiName, query) || Includes(poiType, query) {
        highlighted := highlighted + {poi.id};
      }
      assert (set i | 0 <= i < k + 1 && Matches(pois[i], query) :: pois[i].id)
          == (set i | 0 <= i < k && Matches(pois[i], query) :: pois[i].id)
             + (if Matches(pois[k], query) then {pois[k].id} else {});
    }
  }

  lemma EmptyQueryHighlightsNothing(pois: seq<POI>, searchQuery: string)
    requires ToLower(searchQuery) == []
    ensures Highlight(pois, searchQuery) == {}
  {
  }

  /** For a non-empty query, an id is highlighted exactly when some POI with that id
      has the lower-cased query in its lower-cased name or in its type value. */
  lemma HighlightMembership(pois: seq<POI>, searchQuery: string, id: string)
    requires searchQuery != []
    ensures id in Highlight(pois, searchQuery) <==>
              exists i :: 0 <= i < |pois| && pois[i].id == id &&
                (Includes(ToLower(pois[i].name), ToLower(searchQuery)) ||
                 Includes(TypeString(pois[i].poiType), ToLower(searchQuery)))
  {
    var query := ToLower(searchQuery);
    assert query != [] by { assert |query| == |searchQuery|; }
    if exists i :: 0 <= i < |pois| && pois[i].id == id && Matches(pois[i], query) {
      var i :| 0 <= i < |pois| && pois[i].id == id && Matches(pois[i], query);
      assert pois[i].id in Highlight(pois, searchQuery);
    }
  }

  /** Only ids of POIs in the list are ever highlighted. */
  lemma HighlightedIdsAreKnown(pois: seq<POI>, searchQuery: string, id: string)
    requires id in Highlight(pois, searchQuery)
    ensures exists i :: 0 <= i < |pois| && pois[i].id == id
  {
    var i :| 0 <= i < |pois| && Matches(pois[i], ToLower(searchQuery)) && pois[i].id == id;
  }

  /** A POI without a type is found only through its name. */
  lemma UntypedMatchesByNameOnly(poi: POI, query: string)
    requires poi.poiType.None? && query != []
    ensures Matches(poi, query) <==> Includes(ToLower(poi.name), query)
  {
    NothingIncludedInEmpty(query);
  }

  /** The search ignores the case of what is typed. */
  lemma SearchIgnoresCase(pois: seq<POI>, searchQuery: string)
    ensures Highlight(pois, ToLower(searchQuery)) == Highlight(pois, searchQuery)
  {
    ToLowerIdempotent(searchQuery);
  }

  /** Typing more only narrows the highlight: a query that contains another
      highlights no POI the shorter one did not. */
  lemma LongerQueryHighlightsFewer(pois: seq<POI>, shorter: string, longer: string)
    requires ToLower(shorter) != [] && Includes(ToLower(longer), ToLower(shorter))
    ensures Highlight(pois, longer) <= Highlight(pois, shorter)
  {
    var q1, q2 := ToLower(shorter), ToLower(longer);
    if q2 != [] {
      forall id | id in Highlight(pois, longer)
        ensures id in Highlight(pois, shorter)
      {
        var i :| 0 <= i < |pois| && Matches(pois[i], q2) && pois[i].id == id;
        if Includes(ToLower(pois[i].name), q2) {
          IncludesTransitive(ToLower(pois[i].name), q2, q1);
        } else {
          IncludesTransitive(TypeString(pois[i].poiType), q2, q1);
        }
        assert Matches(pois[i], q1);
      }
    }
  }

  // ---------------------------------------------------------------------------
  // Stepping along the route

  const STEP_DISTANCE: real := 15.0

  datatype Direction = Forward | Backward

  /** A position getPointAtDistance can return: a vertex of the route, or a point
      interpolated between two vertices at the given distance along it. */
  datatype Position = Vertex(p: Point) | Interpolated(path: seq<Point>, distance: real)

  /** getPointAtDistance: null for an empty route, the first vertex for a distance
      not beyond the start, and the only vertex of a one-point route. */
  function GetPointAtDistance(path: seq<Point>, distance: real): (r: Option<Position>)
    ensures r.None? <==> |path| == 0
    ensures |path| > 0 && distance <= 0.0 ==> r == Some(Vertex(path[0]))
    ensures |path| == 1 ==> r == Some(Vertex(path[0]))
    ensures |path| > 1 && distance > 0.0 ==> r == Some(Interpolated(path, distance))
  {
    if |path| == 0 then None
    else if distance <= 0.0 then Some(Vertex(path[0]))
    else if |path| == 1 then Some(Vertex(path[0]))
    else Some(Interpolated(path, distance))
  }

  /** The playback state a step touches. */
  datatype Playback = Playback(distanceTraveled: real, isAnimating: bool, currentPosition: Option<Position>)

  /** Math.max(lo, Math.min(v, hi)) for lo <= hi: v pulled into [lo, hi]. */
  function Clamp(v: real, lo: real, hi: real): (c: real)
    requires lo <= hi
    ensures lo <= c <= hi
    ensures lo <= v <= hi ==> c == v
    ensures v < lo ==> c == lo
    ensures v > hi ==> c == hi
  {
    if v < lo then lo else if v > hi then hi else v
  }

  /** handleStep: with no route or a zero-length route nothing changes; otherwise the
      animation stops and the walker moves one step, clamped to the route. */
  function HandleStep(path: Option<seq<Point>>, totalPathLength: real, state: Playback, direction: Direction)
    : (state': Playback)
    ensures path.None? || totalPathLength == 0.0 ==> state' == state
    ensures path.Some? && totalPathLength != 0.0 ==>
              var newDistance := state.distanceTraveled + (if direction == Forward then STEP_DISTANCE else -STEP_DISTANCE);
              && !state'.isAnimating
              && 0.0 <= state'.distanceTraveled
              && (totalPathLength >= 0.0 ==> state'.distanceTraveled <= totalPathLength)
              && (0.0 <= newDistance <= totalPathLength ==> state'.distanceTraveled == newDistance)
              && (newDistance < 0.0 ==> state'.distanceTraveled == 0.0)
              && (newDistance > totalPathLength >= 0.0 ==> state'.distanceTraveled == totalPathLength)
              && (totalPathLength > 0.0 ==> state'.distanceTraveled == Clamp(newDistance, 0.0, totalPathLength))
              && state'.currentPosition ==
                   (if |path.value| > 0 then GetPointAtDistance(path.value, state'.distanceTraveled)
                    else state.currentPosition)
  {
    if path.None? || totalPathLength == 0.0 then state
    else
      var newDistance := state.distanceTraveled + (if direction == Forward then STEP_DISTANCE else -STEP_DISTANCE);
      var clampedDistance := Max(0.0, Min(newDistance, totalPathLength));
      var newPosition := GetPointAtDistance(path.value, clampedDistance);
      Playback(clampedDistance, false,
               if newPosition.Some? then newPosition else state.currentPosition)
  }

  /** A step backward from within one step of the start lands on the first vertex. */
  lemma StepBackToStart(path: seq<Point>, totalPathLength: real, state: Playback)
    requires |path| > 0 && totalPathLength > 0.0
    requires state.distanceTraveled <= STEP_DISTANCE
    ensures HandleStep(Some(path), totalPathLength, state, Backward).distanceTraveled == 0.0
    ensures HandleStep(Some(path), totalPathLength, state, Backward).currentPosition == Some(Vertex(path[0]))
  {
  }

  /** Away from the ends of the route, a backward step undoes a forward step. */
  lemma ForwardThenBackward(path: seq<Point>, totalPathLength: real, state: Playback)
    requires totalPathLength > 0.0
    requires 0.0 <= state.distanceTraveled && state.distanceTraveled + STEP_DISTANCE <= totalPathLength
    ensures HandleStep(Some(path), totalPathLength,
                       HandleStep(Some(path), totalPathLength, state, Forward), Backward).distanceTraveled
         == state.distanceTraveled
  {
  }

  /** Once on the route, the travelled distance stays on it whatever steps are taken. */
  lemma {:induction false} StepsStayOnRoute(path: Option<seq<Point>>, totalPathLength: real, state: Playback, steps: seq<Direction>)
    requires 0.0 <= state.distanceTraveled <= totalPathLength
    ensures var last := StepAll(path, totalPathLength, state, steps);
            0.0 <= last.distanceTraveled <= totalPathLength
    decreases |steps|
  {
    if |steps| > 0 {
      StepsStayOnRoute(path, totalPathLength, HandleStep(path, totalPathLength, state, steps[0]), steps[1..]);
    }
  }

  function StepAll(path: Option<seq<Point>>, totalPathLength: real, state: Playback, steps: seq<Direction>): Playback
    decreases |steps|
  {
    if |steps| == 0 then state
    else StepAll(path, totalPathLength, HandleStep(path, totalPathLength, state, steps[0]), steps[1..])
  }
}
