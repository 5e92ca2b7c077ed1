/** Duplicate detection and removal (discovery/validator.rs). */
module RouteValidator {
  import opened Wrappers
  import opened Routes

  /** No earlier route has the key of route i. */
  predicate IsFirst(routes: seq<RouteConfig>, i: nat)
    requires i < |routes|
  {
    forall j :: 0 <= j < i ==> Key(routes[j]) != Key(routes[i])
  }

  /** The routes at positions whose key occurs there for the first time. */
  function Dedup(routes: seq<RouteConfig>): seq<RouteConfig> {
    if routes == [] then []
    else
      var n := |routes| - 1;
      if IsFirst(routes, n) then Dedup(routes[..n]) + [routes[n]] else Dedup(routes[..n])
  }

  method DeduplicateRoutes(routes: seq<RouteConfig>) returns (result: seq<RouteConfig>)
    ensures result == Dedup(routes)
  {
    var seen: set<string> := {};
    result := [];
    for i := 0 to |routes|
      invariant seen == Keys(routes[..i])
      invariant result == Dedup(routes[..i])
    {
      var key := Key(routes[i]);
      SeenStep(routes[..i + 1]);
      assert routes[..i + 1][..i] == routes[..i];
      if key !in seen {
        seen := seen + {key};
        result := result + [routes[i]];
      }
    }
    assert routes[..|routes|] == routes;
  }

  lemma SeenStep(routes: seq<RouteConfig>)
    requires routes != []
    ensures var n := |routes| - 1;
      Keys(routes) == Keys(routes[..n]) + {Key(routes[n])} &&
      (IsFirst(routes, n) <==> Key(routes[n]) !in Keys(routes[..n]))
  {
  }

  /** Positions i < j of the first duplicate: j repeats a key for the first time in
      the list, and i is where that key stands first. */
  predicate IsFirstDuplicate(routes: seq<RouteConfig>, i: nat, j: nat) {
    && i < j < |routes|
    && Key(routes[i]) == Key(routes[j])
    && forall k :: 0 <= k < j ==> IsFirst(routes, k)
  }

  function DuplicateError(routes: seq<RouteConfig>, i: nat, j: nat): DiscoveryError
    requires i < j < |routes|
  {
    DuplicateRoute(routes[i].grpcMethod, routes[j].grpcMethod, Key(routes[j]))
  }

  /** After k routes without a duplicate, seen maps each of their keys to its method. */
  ghost predicate Recorded(routes: seq<RouteConfig>, k: nat, seen: map<string, string>)
    requires k <= |routes|
  {
    && (forall i :: 0 <= i < k ==> IsFirst(routes, i))
    && (forall i :: 0 <= i < k ==> Key(routes[i]) in seen && seen[Key(routes[i])] == routes[i].grpcMethod)
    && (forall key :: key in seen ==> exists i :: 0 <= i < k && Key(routes[i]) == key)
  }

  lemma RecordNext(routes: seq<RouteConfig>, k: nat, seen: map<string, string>)
    requires k < |routes| && Recorded(routes, k, seen) && Key(routes[k]) !in seen
    ensures Recorded(routes, k + 1, seen[Key(routes[k]) := routes[k].grpcMethod])
  {
  }

  lemma FindDuplicate(routes: seq<RouteConfig>, k: nat, seen: map<string, string>) returns (i: nat)
    requires k < |routes| && Recorded(routes, k, seen) && Key(routes[k]) in seen
    ensures IsFirstDuplicate(routes, i, k)
    ensures DuplicateError(routes, i, k) == DuplicateRoute(seen[Key(routes[k])], routes[k].grpcMethod, Key(routes[k]))
  {
    i :| 0 <= i < k && Key(routes[i]) == Key(routes[k]);
  }

  method CheckDuplicates(routes: seq<RouteConfig>) returns (result: Result<(), DiscoveryError>)
    ensures result.Success? <==> DistinctKeys(routes)
    ensures result.Failure? ==>
      exists i: nat, j: nat :: IsFirstDuplicate(routes, i, j) && result.error == DuplicateError(routes, i, j)
  {
    var seen: map<string, string> := map[];
    var duplicates: seq<DiscoveryError> := [];
    ghost var fi: nat, fj: nat := 0, 0;
    for k := 0 to |routes|
      invariant duplicates == [] ==> Recorded(routes, k, seen)
      invariant duplicates != [] ==> IsFirstDuplicate(routes, fi, fj) && duplicates[0] == DuplicateError(routes, fi, fj)
    {
      var key := Key(routes[k]);
      if key in seen {
        if duplicates == [] {
          fi := FindDuplicate(routes, k, seen);
          fj := k;
        }
        duplicates := duplicates + [DuplicateRoute(seen[key], routes[k].grpcMethod, key)];
      } else {
        if duplicates == [] {
          RecordNext(routes, k, seen);
        }
        seen := seen[key := routes[k].grpcMethod];
      }
    }
    if duplicates != [] {
      return Failure(duplicates[0]);
    }
    assert forall i, j :: 0 <= i < j < |routes| && IsFirst(routes, j) ==> Key(routes[i]) != Key(routes[j]);
    return Success(());
  }

  // ---------- what removal keeps ----------

  lemma {:induction false} FirstIndexOfKey(routes: seq<RouteConfig>, p: nat) returns (i: nat)
    requires p < |routes|
    ensures i <= p && Key(routes[i]) == Key(routes[p]) && IsFirst(routes, i)
  {
    i := p;
    if j :| 0 <= j < p && Key(routes[j]) == Key(routes[p]) {
      i := FirstIndexOfKey(routes, j);
    }
  }

  /** Kept routes have distinct keys, and every key stays. */
  lemma {:induction false} DedupKeepsKeys(routes: seq<RouteConfig>)
    ensures DistinctKeys(Dedup(routes))
    ensures Keys(Dedup(routes)) == Keys(routes)
  {
    if routes == [] {
    } else {
      var n := |routes| - 1;
      DedupKeepsKeys(routes[..n]);
      SeenStep(routes);
      KeysOfConcat(Dedup(routes[..n]), [routes[n]]);
      KeysOfOne(routes[n]);
    }
  }

  predicate FirstAt(routes: seq<RouteConfig>, i: nat, r: RouteConfig) {
    i < |routes| && IsFirst(routes, i) && routes[i] == r
  }

  lemma FirstAtFront(routes: seq<RouteConfig>, i: nat, r: RouteConfig)
    requires i < |routes| - 1
    ensures FirstAt(routes[..|routes| - 1], i, r) <==> FirstAt(routes, i, r)
  {
  }

  /** A route is kept exactly when it stands at a first occurrence of its key. */
  lemma {:induction false} DedupKeepsFirsts(routes: seq<RouteConfig>, r: RouteConfig)
    ensures r in Dedup(routes) <==> exists i: nat :: FirstAt(routes, i, r)
  {
    if routes == [] {
    } else {
      var n := |routes| - 1;
      DedupKeepsFirsts(routes[..n], r);
      if i: nat :| FirstAt(routes[..n], i, r) {
        FirstAtFront(routes, i, r);
      }
      if i: nat :| FirstAt(routes, i, r) && i < n {
        FirstAtFront(routes, i, r);
      }
      if r in Dedup(routes) && r !in Dedup(routes[..n]) {
        assert FirstAt(routes, n, r);
      }
    }
  }

  lemma DedupSubset(routes: seq<RouteConfig>)
    ensures forall r :: r in Dedup(routes) ==> r in routes
  {
  }

  /** Removal changes nothing exactly when there is no duplicate, that is when the check succeeds. */
  lemma {:induction false} DedupIdentityIffDistinct(routes: seq<RouteConfig>)
    ensures Dedup(routes) == routes <==> DistinctKeys(routes)
  {
    DedupKeepsKeys(routes);
    if DistinctKeys(routes) && routes != [] {
      var n := |routes| - 1;
      DedupIdentityIffDistinct(routes[..n]);
      assert routes == routes[..n] + [routes[n]];
    }
  }

  lemma DedupIdempotent(routes: seq<RouteConfig>)
    ensures Dedup(Dedup(routes)) == Dedup(routes)
  {
    DedupKeepsKeys(routes);
    DedupIdentityIffDistinct(Dedup(routes));
  }

  /** What stands first without duplicates stays as it is; of what follows, some routes are kept. */
  lemma {:induction false} DedupKeepsPrefix(a: seq<RouteConfig>, b: seq<RouteConfig>)
    requires DistinctKeys(a)
    ensures |a| <= |Dedup(a + b)| && Dedup(a + b)[..|a|] == a
    ensures forall r :: r in Dedup(a + b)[|a|..] ==> r in b
  {
    if b == [] {
      assert a + b == a;
      DedupIdentityIffDistinct(a);
    } else {
      var n := |b| - 1;
      DedupKeepsPrefix(a, b[..n]);
      assert (a + b)[..|a| + n] == a + b[..n];
      var before := Dedup(a + b[..n]);
      var after := Dedup(a + b);
      assert after == before || after == before + [b[n]];
      assert after[..|a|] == before[..|a|];
      assert after[|a|..] == before[|a|..] || after[|a|..] == before[|a|..] + [b[n]];
    }
  }

  /** Kept routes stay in order. */
  lemma {:induction false} DedupKeepsOrder(routes: seq<RouteConfig>, i: nat, j: nat) returns (p: nat, q: nat)
    requires i < j < |routes| && IsFirst(routes, i) && IsFirst(routes, j)
    ensures p < q < |Dedup(routes)| && Dedup(routes)[p] == routes[i] && Dedup(routes)[q] == routes[j]
  {
    var n := |routes| - 1;
    if j == n {
      DedupKeepsFirsts(routes[..n], routes[i]);
      assert FirstAt(routes[..n], i, routes[i]);
      p :| 0 <= p < |Dedup(routes[..n])| && Dedup(routes[..n])[p] == routes[i];
      q := |Dedup(routes[..n])|;
    } else {
      p, q := DedupKeepsOrder(routes[..n], i, j);
    }
  }
}
