/** Route patterns with dynamic segments (router/mod.rs, RoutePattern). */
module RoutePatterns {
  import opened Wrappers
  import opened Text

  datatype PathSegment = Static(text: string) | Dynamic(name: string)

  datatype RoutePattern = RoutePattern(segments: seq<PathSegment>, httpMethod: string) {

    predicate IsStatic() {
      forall i :: 0 <= i < |segments| ==> segments[i].Static?
    }

    /** The loop of the source: compare segment by segment, collecting parameters. */
    method Matches(path: string) returns (params: Option<map<string, string>>)
      ensures params == Match(segments, path)
    {
      var pathSegments := Segments(path);
      if |pathSegments| != |segments| {
        return None;
      }
      var bound: map<string, string> := map[];
      for i := 0 to |segments|
        invariant Fits(segments[..i], pathSegments[..i])
        invariant bound == Bindings(segments[..i], pathSegments[..i])
      {
        assert segments[..i + 1][..i] == segments[..i] && pathSegments[..i + 1][..i] == pathSegments[..i];
        match segments[i]
        case Static(expected) =>
          if expected != pathSegments[i] {
            return None;
          }
        case Dynamic(name) =>
          bound := bound[name := pathSegments[i]];
      }
      assert segments[..|segments|] == segments && pathSegments[..|segments|] == pathSegments;
      return Some(bound);
    }
  }

  function ParseSegment(segment: string): PathSegment {
    if segment != "" && segment[0] == ':' then Dynamic(segment[1..]) else Static(segment)
  }

  function ParseSegments(segs: seq<string>): (parsed: seq<PathSegment>)
    ensures |parsed| == |segs|
    ensures forall i :: 0 <= i < |segs| ==> parsed[i] == ParseSegment(segs[i])
  {
    seq(|segs|, i requires 0 <= i < |segs| => ParseSegment(segs[i]))
  }

  function Parse(path: string, httpMethod: string): RoutePattern {
    RoutePattern(ParseSegments(Segments(path)), Upper(httpMethod))
  }

  // ---------- what matching means ----------

  /** Same length, and every static segment occurs literally. */
  predicate Fits(pattern: seq<PathSegment>, segs: seq<string>) {
    |pattern| == |segs| &&
    forall i :: 0 <= i < |pattern| && pattern[i].Static? ==> pattern[i].text == segs[i]
  }

  /** Parameter values, the last segment of a repeated name winning. */
  function Bindings(pattern: seq<PathSegment>, segs: seq<string>): map<string, string>
    requires |pattern| == |segs|
  {
    if pattern == [] then map[]
    else
      var n := |pattern| - 1;
      var earlier := Bindings(pattern[..n], segs[..n]);
      if pattern[n].Dynamic? then earlier[pattern[n].name := segs[n]] else earlier
  }

  function Match(pattern: seq<PathSegment>, path: string): Option<map<string, string>> {
    var segs := Segments(path);
    if Fits(pattern, segs) then Some(Bindings(pattern, segs)) else None
  }

  function Names(pattern: seq<PathSegment>): set<string> {
    set i | 0 <= i < |pattern| && pattern[i].Dynamic? :: pattern[i].name
  }

  predicate DistinctParams(pattern: seq<PathSegment>) {
    forall i, j :: 0 <= i < j < |pattern| && pattern[i].Dynamic? && pattern[j].Dynamic? ==>
      pattern[i].name != pattern[j].name
  }

  /** Segments at equally named positions are equal. */
  predicate Consistent(pattern: seq<PathSegment>, segs: seq<string>)
    requires |pattern| == |segs|
  {
    forall i, j :: 0 <= i < j < |pattern| && pattern[i].Dynamic? && pattern[i] == pattern[j] ==> segs[i] == segs[j]
  }

  /** The segments obtained by writing parameter values into a pattern. */
  function Fill(pattern: seq<PathSegment>, params: map<string, string>): (segs: seq<string>)
    requires Names(pattern) <= params.Keys
    ensures |segs| == |pattern|
  {
    seq(|pattern|, i requires 0 <= i < |pattern| =>
      if pattern[i].Static? then pattern[i].text
      else assert pattern[i].name in Names(pattern); params[pattern[i].name])
  }

  predicate IsLastUse(pattern: seq<PathSegment>, i: nat)
    requires i < |pattern|
  {
    pattern[i].Dynamic? && forall j :: i < j < |pattern| ==> pattern[j] != pattern[i]
  }

  lemma NamesStep(pattern: seq<PathSegment>)
    requires pattern != []
    ensures var n := |pattern| - 1;
      Names(pattern) == Names(pattern[..n]) + (if pattern[n].Dynamic? then {pattern[n].name} else {})
  {
  }

  lemma {:induction false} BoundNames(pattern: seq<PathSegment>, segs: seq<string>)
    requires |pattern| == |segs|
    ensures Bindings(pattern, segs).Keys == Names(pattern)
  {
    if pattern == [] {
    } else {
      var n := |pattern| - 1;
      BoundNames(pattern[..n], segs[..n]);
      NamesStep(pattern);
    }
  }

  /** Each parameter is bound to the last segment its name stands at. */
  lemma {:induction false} BoundToLast(pattern: seq<PathSegment>, segs: seq<string>, i: nat)
    requires |pattern| == |segs| && i < |pattern| && IsLastUse(pattern, i)
    ensures pattern[i].name in Bindings(pattern, segs) && Bindings(pattern, segs)[pattern[i].name] == segs[i]
  {
    var n := |pattern| - 1;
    if i == n {
    } else {
      assert pattern[..n][i] == pattern[i] && segs[..n][i] == segs[i];
      assert IsLastUse(pattern[..n], i);
      BoundToLast(pattern[..n], segs[..n], i);
      assert pattern[n] != pattern[i];
    }
  }

  lemma {:induction false} LastPosition(pattern: seq<PathSegment>, k: nat) returns (i: nat)
    requires k < |pattern|
    ensures k <= i < |pattern| && pattern[i] == pattern[k]
    ensures forall j :: i < j < |pattern| ==> pattern[j] != pattern[k]
    decreases |pattern| - k
  {
    i := k;
    if j :| k < j < |pattern| && pattern[j] == pattern[k] {
      i := LastPosition(pattern, j);
    }
  }

  /** Refilling the matched parameters gives the path's segments back exactly when
      equally named positions carry equal segments. */
  lemma RefillExactly(pattern: seq<PathSegment>, path: string)
    requires Match(pattern, path).Some?
    ensures var params := Match(pattern, path).value;
      Names(pattern) == params.Keys &&
      (Fill(pattern, params) == Segments(path) <==> Consistent(pattern, Segments(path)))
  {
    var segs := Segments(path);
    var params := Match(pattern, path).value;
    BoundNames(pattern, segs);
    if Consistent(pattern, segs) {
      forall k | 0 <= k < |pattern| ensures Fill(pattern, params)[k] == segs[k] {
        if pattern[k].Dynamic? {
          var i := LastPosition(pattern, k);
          BoundToLast(pattern, segs, i);
        }
      }
    }
    if Fill(pattern, params) == segs {
      forall i, j | 0 <= i < j < |pattern| && pattern[i].Dynamic? && pattern[i] == pattern[j] ensures segs[i] == segs[j] {
        assert Fill(pattern, params)[i] == Fill(pattern, params)[j];
      }
    }
  }

  /** With distinct parameter names a match can always be undone. */
  lemma MatchThenFill(pattern: seq<PathSegment>, path: string)
    requires DistinctParams(pattern)
    requires Match(pattern, path).Some?
    ensures Names(pattern) == Match(pattern, path).value.Keys
    ensures Fill(pattern, Match(pattern, path).value) == Segments(path)
  {
    RefillExactly(pattern, path);
  }

  lemma FillIsSegments(pattern: seq<PathSegment>, params: map<string, string>)
    requires Names(pattern) <= params.Keys
    requires forall i :: 0 <= i < |pattern| && pattern[i].Static? ==> IsSegment(pattern[i].text)
    requires forall name :: name in params ==> IsSegment(params[name])
    ensures AreSegments(Fill(pattern, params))
  {
  }

  lemma BindingsOfFill(pattern: seq<PathSegment>, params: map<string, string>)
    requires DistinctParams(pattern) && Names(pattern) == params.Keys
    ensures Bindings(pattern, Fill(pattern, params)) == params
  {
    var segs := Fill(pattern, params);
    BoundNames(pattern, segs);
    forall name | name in params ensures Bindings(pattern, segs)[name] == params[name] {
      assert name in Names(pattern);
      var i :| 0 <= i < |pattern| && pattern[i].Dynamic? && pattern[i].name == name;
      BoundToLast(pattern, segs, i);
    }
  }

  /** Writing segment values into a parsed pattern and matching the resulting path returns those values. */
  lemma FillThenMatch(source: string, params: map<string, string>)
    requires var pattern := ParseSegments(Segments(source));
      DistinctParams(pattern) && Names(pattern) == params.Keys
    requires forall name :: name in params ==> IsSegment(params[name])
    ensures var pattern := ParseSegments(Segments(source));
      Match(pattern, Join(Fill(pattern, params))) == Some(params)
  {
    var pattern := ParseSegments(Segments(source));
    SegmentsAreSegments(source);
    assert forall i :: 0 <= i < |pattern| && pattern[i].Static? ==> IsSegment(pattern[i].text) by {
      assert forall i :: 0 <= i < |pattern| ==> IsSegment(Segments(source)[i]);
    }
    FillIsSegments(pattern, params);
    SegmentsOfJoin(Fill(pattern, params));
    BindingsOfFill(pattern, params);
  }

  /** A repeated name loses its earlier segment, so refilling does not give the path back. */
  lemma RepeatedNameLosesSegment()
    ensures var pattern := ParseSegments([":id", ":id"]);
      Match(pattern, Join(["a", "b"])) == Some(map["id" := "b"]) &&
      Fill(pattern, map["id" := "b"]) != Segments(Join(["a", "b"]))
  {
    var segs := ["a", "b"];
    var pattern := ParseSegments([":id", ":id"]);
    SegmentsOfJoin(segs);
    assert ":id"[1..] == "id";
    assert pattern == [Dynamic("id"), Dynamic("id")];
    assert pattern[..1] == [Dynamic("id")] && segs[..1] == ["a"];
    assert Bindings(pattern[..1], segs[..1]) == map["id" := "a"];
    assert Bindings(pattern, segs) == map["id" := "b"] by {
      assert |pattern| == 2 && pattern[1].name == "id" && segs[1] == "b";
    }
    assert Fill(pattern, map["id" := "b"])[0] == "b";
  }
}
