/** String operations the gateway relies on, over ASCII text. */
module Text {

  function UpperChar(c: char): char {
    if 'a' <= c <= 'z' then ((c as int) - 32) as char else c
  }

  function LowerChar(c: char): char {
    if 'A' <= c <= 'Z' then ((c as int) + 32) as char else c
  }

  function Upper(s: string): (u: string)
    ensures |u| == |s| && forall i :: 0 <= i < |s| ==> u[i] == UpperChar(s[i])
  {
    seq(|s|, i requires 0 <= i < |s| => UpperChar(s[i]))
  }

  function Lower(s: string): (l: string)
    ensures |l| == |s| && forall i :: 0 <= i < |s| ==> l[i] == LowerChar(s[i])
  {
    seq(|s|, i requires 0 <= i < |s| => LowerChar(s[i]))
  }

  predicate EndsWith(s: string, suffix: string) {
    |suffix| <= |s| && s[|s| - |suffix|..] == suffix
  }

  lemma UpperIdempotent(s: string)
    ensures Upper(Upper(s)) == Upper(s)
  {
  }

  /** Lower-casing undoes upper-casing of small letters, and the other way round. */
  lemma CasesAreInverse(c: char)
    ensures LowerChar('A') == 'a' && LowerChar('Z') == 'z' && UpperChar('a') == 'A' && UpperChar('z') == 'Z'
    ensures 'a' <= c <= 'z' ==> 'A' <= UpperChar(c) <= 'Z' && LowerChar(UpperChar(c)) == c
    ensures 'A' <= c <= 'Z' ==> 'a' <= LowerChar(c) <= 'z' && UpperChar(LowerChar(c)) == c
    ensures !('a' <= c <= 'z') ==> UpperChar(c) == c
    ensures !('A' <= c <= 'Z') ==> LowerChar(c) == c
  {
  }

  // ---------- splitting on '/' ----------

  /** The pieces of s between slashes, empty ones included. */
  function Split(s: string): (parts: seq<string>)
    ensures |parts| >= 1
  {
    if s == "" then [""]
    else if s[0] == '/' then [""] + Split(s[1..])
    else
      var rest := Split(s[1..]);
      [[s[0]] + rest[0]] + rest[1..]
  }

  function NonEmpty(parts: seq<string>): seq<string> {
    if parts == [] then []
    else if parts[0] == "" then NonEmpty(parts[1..])
    else [parts[0]] + NonEmpty(parts[1..])
  }

  function Segments(path: string): seq<string> {
    NonEmpty(Split(path))
  }

  predicate IsSegment(s: string) {
    s != "" && '/' !in s
  }

  predicate AreSegments(segs: seq<string>) {
    forall i :: 0 <= i < |segs| ==> IsSegment(segs[i])
  }

  /** The canonical path of a list of segments: a slash before each of them. */
  function Join(segs: seq<string>): string {
    if segs == [] then "" else "/" + segs[0] + Join(segs[1..])
  }

  lemma {:induction false} SplitSlashFree(s: string)
    ensures forall i :: 0 <= i < |Split(s)| ==> '/' !in Split(s)[i]
  {
    if s == "" {
    } else {
      SplitSlashFree(s[1..]);
    }
  }

  lemma {:induction false} NonEmptyKeeps(parts: seq<string>)
    requires forall i :: 0 <= i < |parts| ==> '/' !in parts[i]
    ensures AreSegments(NonEmpty(parts))
  {
    if parts == [] {
    } else {
      NonEmptyKeeps(parts[1..]);
    }
  }

  /** Every segment of a path is non-empty and free of slashes. */
  lemma SegmentsAreSegments(path: string)
    ensures AreSegments(Segments(path))
  {
    SplitSlashFree(path);
    NonEmptyKeeps(Split(path));
  }

  // ---------- segments, cut by cut ----------

  lemma Associative<T>(a: seq<T>, b: seq<T>, c: seq<T>)
    ensures (a + b) + c == a + (b + c)
  {
  }

  lemma FirstOfConcat<T>(a: seq<T>, b: seq<T>)
    requires a != []
    ensures (a + b)[0] == a[0] && (a + b)[1..] == a[1..] + b
  {
  }

  lemma SplitCons(c: char, s: string)
    ensures Split([c] + s) == if c == '/' then [""] + Split(s) else [[c] + Split(s)[0]] + Split(s)[1..]
  {
    FirstOfConcat([c], s);
    assert [c][1..] + s == s;
  }

  lemma SplitStep(c: char, rest: string, tail: string, more: seq<string>)
    requires Split(tail) == Split(rest) + more
    ensures Split([c] + tail) == Split([c] + rest) + more
  {
    SplitCons(c, rest);
    SplitCons(c, tail);
    var parts := Split(rest);
    if c == '/' {
      Associative([""], parts, more);
    } else {
      FirstOfConcat(parts, more);
      Associative([[c] + parts[0]], parts[1..], more);
    }
  }

  lemma {:induction false} SplitAtSlash(p: string, q: string)
    ensures Split(p + "/" + q) == Split(p) + Split(q)
  {
    if p == "" {
      SplitCons('/', q);
      assert p + "/" + q == ['/'] + q;
    } else {
      SplitAtSlash(p[1..], q);
      SplitStep(p[0], p[1..], p[1..] + "/" + q, Split(q));
      assert [p[0]] + p[1..] == p && [p[0]] + (p[1..] + "/" + q) == p + "/" + q;
    }
  }

  lemma {:induction false} NonEmptyConcat(a: seq<string>, b: seq<string>)
    ensures NonEmpty(a + b) == NonEmpty(a) + NonEmpty(b)
  {
    if a == [] {
      assert a + b == b;
    } else {
      NonEmptyConcat(a[1..], b);
      FirstOfConcat(a, b);
      Associative([a[0]], NonEmpty(a[1..]), NonEmpty(b));
    }
  }

  /** The segments of any path, however many slashes it has: cut it at a slash. */
  lemma SegmentsAtSlash(p: string, q: string)
    ensures Segments(p + "/" + q) == Segments(p) + Segments(q)
  {
    SplitAtSlash(p, q);
    NonEmptyConcat(Split(p), Split(q));
  }

  lemma {:induction false} SplitWithoutSlash(p: string)
    requires '/' !in p
    ensures Split(p) == [p]
  {
    if p == "" {
    } else {
      SplitWithoutSlash(p[1..]);
      assert [p[0]] + p[1..] == p;
    }
  }

  lemma NonEmptyOne(p: string)
    ensures NonEmpty([p]) == if p == "" then [] else [p]
  {
    assert [p][1..] == [];
  }

  /** And a piece without a slash is one segment, or none if it is empty. */
  lemma SegmentsWithoutSlash(p: string)
    requires '/' !in p
    ensures Segments(p) == if p == "" then [] else [p]
  {
    SplitWithoutSlash(p);
    NonEmptyOne(p);
  }

  /** A leading slash adds no segment. */
  lemma LeadingSlash(q: string)
    ensures Segments("/" + q) == Segments(q)
  {
    SegmentsAtSlash("", q);
    SegmentsWithoutSlash("");
    assert "" + "/" + q == "/" + q;
  }

  lemma SegmentsOfOneMore(s: string, tail: string)
    requires IsSegment(s)
    ensures Segments("/" + s + "/" + tail) == [s] + Segments(tail)
    ensures Segments("/" + s) == [s]
  {
    SegmentsAtSlash("/" + s, tail);
    LeadingSlash(s);
    SegmentsWithoutSlash(s);
  }

  /** Splitting undoes joining. */
  lemma {:induction false} SegmentsOfJoin(segs: seq<string>)
    requires AreSegments(segs)
    ensures Segments(Join(segs)) == segs
  {
    if segs == [] {
      SegmentsWithoutSlash("");
    } else if |segs| == 1 {
      SegmentsOfOneMore(segs[0], "");
      assert Join(segs[1..]) == "" && "/" + segs[0] + "" == "/" + segs[0];
    } else {
      var more := segs[1] + Join(segs[1..][1..]);
      SegmentsOfJoin(segs[1..]);
      LeadingSlash(more);
      SegmentsOfOneMore(segs[0], more);
      assert Join(segs[1..]) == "/" + more && Join(segs) == "/" + segs[0] + "/" + more;
    }
  }
}
