/** Mapping gRPC method names to HTTP routes (discovery/conventions.rs). */
module ConventionMapper {
  import opened Wrappers
  import opened Text

  datatype MethodType = Get | List | Create | Update | Delete

  datatype RouteMapping = RouteMapping(httpMethod: string, httpPath: string, grpcMethod: string)

  const CONVENTION_PATTERNS := ["Get", "List", "Create", "Update", "Delete"]

  const DEFAULT_API_PREFIX := "/api"

  function PatternType(pattern: string): Option<MethodType> {
    if pattern == "Get" then Some(Get)
    else if pattern == "List" then Some(List)
    else if pattern == "Create" then Some(Create)
    else if pattern == "Update" then Some(Update)
    else if pattern == "Delete" then Some(Delete)
    else None
  }

  /** The first pattern that starts the name decides, even if nothing is left after it. */
  function ParseWith(patterns: seq<string>, name: string): Option<(MethodType, string)> {
    if patterns == [] then None
    else if patterns[0] <= name then
      var resource := name[|patterns[0]|..];
      if resource == "" then None
      else match PatternType(patterns[0])
        case None => None
        case Some(methodType) => Some((methodType, Lower(resource)))
    else ParseWith(patterns[1..], name)
  }

  function ParseMethodName(name: string): Option<(MethodType, string)> {
    ParseWith(CONVENTION_PATTERNS, name)
  }

  function HttpVerb(methodType: MethodType): string {
    match methodType
    case Get => "GET"
    case List => "GET"
    case Create => "POST"
    case Update => "PUT"
    case Delete => "DELETE"
  }

  predicate IsVowel(c: char) {
    c in "aeiou"
  }

  function Pluralize(word: string): string {
    if word == "" then word
    else if EndsWith(word, "ch") || EndsWith(word, "sh") || EndsWith(word, "ss") || EndsWith(word, "x") || EndsWith(word, "z")
    then word + "es"
    else if EndsWith(word, "s") then word
    else if EndsWith(word, "y") && |word| > 1 && !IsVowel(word[|word| - 2]) then word[..|word| - 1] + "ies"
    else word + "s"
  }

  function GeneratePath(resource: string, methodType: MethodType): string {
    match methodType
    case List => DEFAULT_API_PREFIX + "/" + resource
    case Create => DEFAULT_API_PREFIX + "/" + Pluralize(resource)
    case _ => DEFAULT_API_PREFIX + "/" + Pluralize(resource) + "/:id"
  }

  function MapMethod(name: string, fullMethod: string): Option<RouteMapping> {
    match ParseMethodName(name)
    case None => None
    case Some((methodType, resource)) =>
      Some(RouteMapping(HttpVerb(methodType), GeneratePath(resource, methodType), fullMethod))
  }

  // ---------- properties of the conventions ----------

  /** A plural is its own plural, so singular and plural method names map to the same path. */
  lemma PluralizeIdempotent(word: string)
    ensures Pluralize(Pluralize(word)) == Pluralize(word)
  {
    var plural := Pluralize(word);
    if word != "" {
      assert plural[|plural| - 1] == 's' by {
        if plural == word {
          assert word[|word| - 1..] == "s";
        }
      }
      var last := plural[|plural| - 1..];
      assert last == "s";
      assert EndsWith(plural, "s");
      assert |plural| >= 2 ==> plural[|plural| - 2..] == [plural[|plural| - 2], 's'];
      assert !EndsWith(plural, "ss");
    }
  }

  /** The resource part of a path is one segment, without a leading ':'. */
  predicate PlainName(s: string) {
    '/' !in s && ':' !in s
  }

  lemma LowerIsPlain(s: string)
    requires PlainName(s)
    ensures PlainName(Lower(s))
  {
  }

  lemma PluralIsPlain(word: string)
    requires word != "" && PlainName(word)
    ensures Pluralize(word) != "" && PlainName(Pluralize(word))
  {
  }

  lemma {:induction false} ParseIsPlain(patterns: seq<string>, name: string)
    requires PlainName(name) && ParseWith(patterns, name).Some?
    ensures PlainName(ParseWith(patterns, name).value.1) && ParseWith(patterns, name).value.1 != ""
  {
    if patterns[0] <= name {
      var resource := name[|patterns[0]|..];
      assert PlainName(resource) by {
        assert forall i :: 0 <= i < |resource| ==> resource[i] in name;
      }
      LowerIsPlain(resource);
    } else {
      ParseIsPlain(patterns[1..], name);
    }
  }

  /** Generated paths are the joined segments "api", the resource and, for single items, ":id". */
  lemma GeneratedPathSegments(resource: string, methodType: MethodType)
    ensures var plural := if methodType.List? then resource else Pluralize(resource);
      GeneratePath(resource, methodType) ==
        if methodType.List? || methodType.Create? then Join(["api", plural]) else Join(["api", plural, ":id"])
  {
    var plural := if methodType.List? then resource else Pluralize(resource);
    JoinTwo("api", plural);
    JoinThree("api", plural, ":id");
  }

  lemma JoinTwo(a: string, b: string)
    ensures Join([a, b]) == "/" + a + "/" + b
  {
    assert [a, b][1..] == [b] && [b][1..] == [];
    assert Join([b]) == "/" + b;
  }

  lemma JoinThree(a: string, b: string, c: string)
    ensures Join([a, b, c]) == "/" + a + "/" + b + "/" + c
  {
    assert [a, b, c][1..] == [b, c];
    JoinTwo(b, c);
  }
}
