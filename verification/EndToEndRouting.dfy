/** From gRPC method names to answered requests. */
module EndToEndRouting {
  import opened Wrappers
  import opened Text
  import opened Routes
  import opened RoutePatterns
  import opened RequestRouter
  import opened RouteDiscovery
  import Conventions = ConventionMapper
  import Laws = ConventionLaws

  /** The segments of a mapped route: "api", one resource segment, and ":id" for single items. */
  datatype Shape = Shape(methodType: Conventions.MethodType, resource: string) {
    predicate Single() {
      methodType.Get? || methodType.Update? || methodType.Delete?
    }

    function Plural(): string {
      if methodType.List? then resource else Conventions.Pluralize(resource)
    }
  }

  predicate HasShape(r: RouteConfig, shape: Shape) {
    && IsSegment(shape.Plural()) && ':' !in shape.Plural()
    && r.httpMethod == Conventions.HttpVerb(shape.methodType)
    && r.path == (if shape.Single() then Join(["api", shape.Plural(), ":id"]) else Join(["api", shape.Plural()]))
  }

  lemma MappedHasShape(service: string, m: Method)
    requires Conventions.PlainName(m.name) && RouteOf(service, m).Some?
    ensures Conventions.ParseMethodName(m.name).Some?
    ensures var (methodType, resource) := Conventions.ParseMethodName(m.name).value;
      HasShape(RouteOf(service, m).value, Shape(methodType, resource))
  {
    var (methodType, resource) := Conventions.ParseMethodName(m.name).value;
    Conventions.ParseIsPlain(Conventions.CONVENTION_PATTERNS, m.name);
    Conventions.PluralIsPlain(resource);
    Conventions.GeneratedPathSegments(resource, methodType);
  }

  lemma VerbIsUpper(methodType: Conventions.MethodType)
    ensures Upper(Conventions.HttpVerb(methodType)) == Conventions.HttpVerb(methodType)
  {
  }

  lemma ParsedShape(plural: string)
    requires IsSegment(plural) && ':' !in plural
    ensures ParseSegments(["api", plural]) == [Static("api"), Static(plural)]
    ensures ParseSegments(["api", plural, ":id"]) == [Static("api"), Static(plural), Dynamic("id")]
  {
  }

  lemma PatternOfShape(r: RouteConfig, shape: Shape)
    requires HasShape(r, shape)
    ensures PatternOf(r).IsStatic() <==> !shape.Single()
    ensures shape.Single() ==> PatternOf(r).segments == [Static("api"), Static(shape.Plural()), Dynamic("id")]
    ensures Upper(r.httpMethod) == r.httpMethod
  {
    ShapeSegments(shape);
    ParsedShape(shape.Plural());
    VerbIsUpper(shape.methodType);
    if shape.Single() {
      SegmentsOfJoin(["api", shape.Plural(), ":id"]);
      assert PatternOf(r).segments[2].Dynamic?;
    } else {
      SegmentsOfJoin(["api", shape.Plural()]);
    }
  }

  lemma JoinDiffers(a: seq<string>, b: seq<string>)
    requires AreSegments(a) && AreSegments(b) && a != b
    ensures Join(a) != Join(b)
  {
    SegmentsOfJoin(a);
    SegmentsOfJoin(b);
  }

  lemma ShapeSegments(shape: Shape)
    requires IsSegment(shape.Plural())
    ensures AreSegments(["api", shape.Plural()]) && AreSegments(["api", shape.Plural(), ":id"])
  {
  }

  // ---------- which mapped routes match which requests ----------

  /** A request path under "/api" for one item of a resource. */
  function ItemPath(plural: string, id: string): string {
    Join(["api", plural, id])
  }

  /** No collection route has an item's path, and an item route matches it only for its own resource. */
  lemma HitsOfItemPath(r: RouteConfig, shape: Shape, plural: string, id: string, verb: string)
    requires HasShape(r, shape) && IsSegment(plural) && IsSegment(id) && Upper(verb) == verb
    ensures !StaticHit(r, ItemPath(plural, id), verb)
    ensures DynamicHit(r, ItemPath(plural, id), verb) <==> shape.Single() && shape.Plural() == plural && r.httpMethod == verb
    ensures DynamicHit(r, ItemPath(plural, id), verb) ==>
      Match(PatternOf(r).segments, ItemPath(plural, id)) == Some(map["id" := id])
  {
    var path := ItemPath(plural, id);
    PatternOfShape(r, shape);
    assert AreSegments(["api", plural, id]) by { assert IsSegment("api"); }
    SegmentsOfJoin(["api", plural, id]);
    if shape.Single() {
      var pattern := PatternOf(r).segments;
      assert Fits(pattern, ["api", plural, id]) <==> shape.Plural() == plural by {
        assert pattern[1] == Static(shape.Plural());
      }
      BindItem(pattern, shape.Plural(), ["api", plural, id]);
    } else {
      ShapeSegments(shape);
      assert |["api", shape.Plural()]| != |["api", plural, id]|;
      JoinDiffers(["api", shape.Plural()], ["api", plural, id]);
    }
  }

  lemma BindItem(pattern: seq<PathSegment>, plural: string, segs: seq<string>)
    requires pattern == [Static("api"), Static(plural), Dynamic("id")] && |segs| == 3
    ensures Bindings(pattern, segs) == map["id" := segs[2]]
  {
    assert pattern[..2] == [Static("api"), Static(plural)] && segs[..2] == [segs[0], segs[1]];
    assert pattern[..2][..1] == [Static("api")] && segs[..2][..1] == [segs[0]];
    assert pattern[..1][..0] == [];
    assert Bindings(pattern[..2][..1], segs[..2][..1]) == map[];
    assert Bindings(pattern[..2], segs[..2]) == map[];
  }

  /** A collection path is matched by no pattern, and exactly by the collection routes of its resource. */
  lemma HitsOfCollectionPath(r: RouteConfig, shape: Shape, plural: string, verb: string)
    requires HasShape(r, shape) && IsSegment(plural) && Upper(verb) == verb
    ensures !DynamicHit(r, Join(["api", plural]), verb)
    ensures StaticHit(r, Join(["api", plural]), verb) <==> !shape.Single() && shape.Plural() == plural && r.httpMethod == verb
  {
    PatternOfShape(r, shape);
    ShapeSegments(shape);
    assert AreSegments(["api", plural]) by { assert IsSegment("api"); }
    SegmentsOfJoin(["api", plural]);
    if !shape.Single() && shape.Plural() != plural {
      assert ["api", shape.Plural()][1] != ["api", plural][1];
      JoinDiffers(["api", shape.Plural()], ["api", plural]);
    }
  }

  lemma SameKeySame(routes: seq<RouteConfig>, r: RouteConfig, s: RouteConfig)
    requires DistinctKeys(routes) && r in routes && s in routes && r.path == s.path && r.httpMethod == s.httpMethod
    ensures r == s
  {
  }

  predicate AllPlain(methods: seq<Method>) {
    forall i :: 0 <= i < |methods| ==> Conventions.PlainName(methods[i].name)
  }

  lemma EveryRouteHasShape(service: string, methods: seq<Method>, r: RouteConfig) returns (shape: Shape)
    requires AllPlain(methods) && r in MapMethods(service, methods)
    ensures HasShape(r, shape)
  {
    CollectedMembers(Mapped(service, methods), r);
    var k :| 0 <= k < |methods| && Mapped(service, methods)[k] == Some(r);
    MappedHasShape(service, methods[k]);
    var (methodType, resource) := Conventions.ParseMethodName(methods[k].name).value;
    shape := Shape(methodType, resource);
  }

  /** What a method's name parses to, as a shape. */
  function ShapeOf(m: Method): Option<Shape> {
    match Conventions.ParseMethodName(m.name)
    case None => None
    case Some((methodType, resource)) => Some(Shape(methodType, resource))
  }

  lemma OwnRoute(service: string, methods: seq<Method>, k: nat)
    requires AllPlain(methods) && k < |methods| && ShapeOf(methods[k]).Some?
    ensures RouteOf(service, methods[k]).Some?
    ensures var own := RouteOf(service, methods[k]).value;
      own in MapMethods(service, methods) && HasShape(own, ShapeOf(methods[k]).value) &&
      own.service == service && own.grpcMethod == methods[k].fullName
  {
    var own := RouteOf(service, methods[k]).value;
    assert Mapped(service, methods)[k] == Some(own);
    CollectedMembers(Mapped(service, methods), own);
    MappedHasShape(service, methods[k]);
  }

  /** In a list of shaped routes without duplicates, an item request is answered by its one route. */
  lemma ItemAnswer(service: string, methods: seq<Method>, own: RouteConfig, shape: Shape, id: string)
    requires AllPlain(methods) && DistinctKeys(MapMethods(service, methods))
    requires own in MapMethods(service, methods) && HasShape(own, shape) && shape.Single() && IsSegment(id)
    ensures LinearRoute(MapMethods(service, methods), ItemPath(shape.Plural(), id), own.httpMethod)
      == Success(RoutingDecision(own.service, own.grpcMethod, map["id" := id]))
  {
    var routes, path, verb := MapMethods(service, methods), ItemPath(shape.Plural(), id), own.httpMethod;
    PatternOfShape(own, shape);
    HitsOfItemPath(own, shape, shape.Plural(), id, verb);
    forall r | r in routes ensures !StaticHit(r, path, verb) && (DynamicHit(r, path, verb) ==> r == own) {
      var other := EveryRouteHasShape(service, methods, r);
      HitsOfItemPath(r, other, shape.Plural(), id, verb);
      if DynamicHit(r, path, verb) {
        SameKeySame(routes, r, own);
      }
    }
    LastStaticHits(routes, path, verb);
    FirstDynamicHits(routes, path, verb);
    assert FirstDynamic(routes, path, verb) == Some(own);
  }

  /** Likewise for a request to a collection. */
  lemma CollectionAnswer(service: string, methods: seq<Method>, own: RouteConfig, shape: Shape)
    requires AllPlain(methods) && DistinctKeys(MapMethods(service, methods))
    requires own in MapMethods(service, methods) && HasShape(own, shape) && !shape.Single()
    ensures LinearRoute(MapMethods(service, methods), Join(["api", shape.Plural()]), own.httpMethod)
      == Success(RoutingDecision(own.service, own.grpcMethod, map[]))
  {
    var routes, path, verb := MapMethods(service, methods), Join(["api", shape.Plural()]), own.httpMethod;
    PatternOfShape(own, shape);
    HitsOfCollectionPath(own, shape, shape.Plural(), verb);
    LastStaticHits(routes, path, verb);
    var last := LastStatic(routes, path, verb).value;
    var other := EveryRouteHasShape(service, methods, last);
    HitsOfCollectionPath(last, other, shape.Plural(), verb);
    SameKeySame(routes, last, own);
  }

  lemma ItemPathText(plural: string, id: string)
    ensures "/api/" + plural + "/" + id == ItemPath(plural, id)
  {
    Conventions.JoinThree("api", plural, id);
    assert "/" + "api" + "/" == "/api/";
  }

  lemma CollectionPathText(plural: string)
    ensures "/api/" + plural == Join(["api", plural])
  {
    Conventions.JoinTwo("api", plural);
    assert "/" + "api" + "/" == "/api/";
  }

  /** A request for one item of a resource reaches exactly this method, with the item's id as its only parameter. */
  predicate ItemReaches(routes: seq<RouteConfig>, service: string, m: Method, verb: string, plural: string, id: string) {
    LinearRoute(routes, "/api/" + plural + "/" + id, verb) == Success(RoutingDecision(service, m.fullName, map["id" := id]))
  }

  /** A request to a resource's collection reaches exactly this method, without parameters. */
  predicate CollectionReaches(routes: seq<RouteConfig>, service: string, m: Method, verb: string, plural: string) {
    LinearRoute(routes, "/api/" + plural, verb) == Success(RoutingDecision(service, m.fullName, map[]))
  }

  /** By its name, the method is reached by the request the conventions give it. */
  predicate Reaches(routes: seq<RouteConfig>, service: string, m: Method, id: string) {
    && ("Get" < m.name ==> ItemReaches(routes, service, m, "GET", Conventions.Pluralize(Lower(m.name[3..])), id))
    && ("Update" < m.name ==> ItemReaches(routes, service, m, "PUT", Conventions.Pluralize(Lower(m.name[6..])), id))
    && ("Delete" < m.name ==> ItemReaches(routes, service, m, "DELETE", Conventions.Pluralize(Lower(m.name[6..])), id))
    && ("Create" < m.name ==> CollectionReaches(routes, service, m, "POST", Conventions.Pluralize(Lower(m.name[6..]))))
    && ("List" < m.name ==> CollectionReaches(routes, service, m, "GET", Lower(m.name[4..])))
  }

  predicate ReachesAs(routes: seq<RouteConfig>, service: string, m: Method, shape: Shape, id: string) {
    var verb := Conventions.HttpVerb(shape.methodType);
    if shape.Single() then ItemReaches(routes, service, m, verb, shape.Plural(), id)
    else CollectionReaches(routes, service, m, verb, shape.Plural())
  }

  lemma ShapeReaches(service: string, methods: seq<Method>, k: nat, shape: Shape, id: string)
    requires AllPlain(methods) && DistinctKeys(MapMethods(service, methods))
    requires k < |methods| && ShapeOf(methods[k]) == Some(shape) && IsSegment(id)
    ensures ReachesAs(MapMethods(service, methods), service, methods[k], shape, id)
  {
    OwnRoute(service, methods, k);
    var own := RouteOf(service, methods[k]).value;
    if shape.Single() {
      ItemPathText(shape.Plural(), id);
      ItemAnswer(service, methods, own, shape, id);
    } else {
      CollectionPathText(shape.Plural());
      CollectionAnswer(service, methods, own, shape);
    }
  }

  lemma NamedShape(m: Method)
    ensures "Get" < m.name ==> ShapeOf(m) == Some(Shape(Conventions.Get, Lower(m.name[3..])))
    ensures "List" < m.name ==> ShapeOf(m) == Some(Shape(Conventions.List, Lower(m.name[4..])))
    ensures "Create" < m.name ==> ShapeOf(m) == Some(Shape(Conventions.Create, Lower(m.name[6..])))
    ensures "Update" < m.name ==> ShapeOf(m) == Some(Shape(Conventions.Update, Lower(m.name[6..])))
    ensures "Delete" < m.name ==> ShapeOf(m) == Some(Shape(Conventions.Delete, Lower(m.name[6..])))
  {
    if "Get" < m.name {
      assert m.name == "Get" + m.name[3..];
      Laws.ParseGet(m.name[3..]);
    }
    if "List" < m.name {
      assert m.name == "List" + m.name[4..];
      Laws.ParseList(m.name[4..]);
    }
    if "Create" < m.name {
      assert m.name == "Create" + m.name[6..];
      Laws.ParseCreate(m.name[6..]);
    }
    if "Update" < m.name {
      assert m.name == "Update" + m.name[6..];
      Laws.ParseUpdate(m.name[6..]);
    }
    if "Delete" < m.name {
      assert m.name == "Delete" + m.name[6..];
      Laws.ParseDelete(m.name[6..]);
    }
  }

  lemma ReachesByName(routes: seq<RouteConfig>, service: string, m: Method, id: string)
    requires ShapeOf(m).Some? ==> ReachesAs(routes, service, m, ShapeOf(m).value, id)
    ensures Reaches(routes, service, m, id)
  {
    NamedShape(m);
  }

  /** Once a service's mapped routes pass the duplicate check, each of its methods is reached by the
      request that its name stands for. */
  lemma RequestsReachTheirMethods(service: string, methods: seq<Method>, k: nat, id: string)
    requires k < |methods| && IsSegment(id)
    ensures AllPlain(methods) && DistinctKeys(MapMethods(service, methods)) ==>
      Reaches(MapMethods(service, methods), service, methods[k], id)
  {
    if AllPlain(methods) && DistinctKeys(MapMethods(service, methods)) {
      if ShapeOf(methods[k]).Some? {
        ShapeReaches(service, methods, k, ShapeOf(methods[k]).value, id);
      }
      ReachesByName(MapMethods(service, methods), service, methods[k], id);
    }
  }
}
