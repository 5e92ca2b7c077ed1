/** What the naming conventions say, name by name and word by word. */
module ConventionLaws {
  import opened Wrappers
  import opened Text
  import opened ConventionMapper

  // ---------- plurals ----------

  lemma EndsOne(word: string, d: char)
    ensures EndsWith(word, [d]) <==> |word| >= 1 && word[|word| - 1] == d
  {
    if |word| >= 1 {
      assert word[|word| - 1..] == [word[|word| - 1]];
    }
  }

  lemma EndsTwo(word: string, c: char, d: char)
    ensures EndsWith(word, [c, d]) <==> |word| >= 2 && word[|word| - 2] == c && word[|word| - 1] == d
  {
    if |word| >= 2 {
      assert word[|word| - 2..] == [word[|word| - 2], word[|word| - 1]];
    }
  }

  /** The word ends in "x", "z", "ch", "sh" or "ss". */
  predicate Hissing(word: string) {
    |word| >= 1 &&
    (var (n, d) := (|word|, word[|word| - 1]);
     || d == 'x' || d == 'z'
     || (n >= 2 && d == 'h' && (word[n - 2] == 'c' || word[n - 2] == 's'))
     || (n >= 2 && d == 's' && word[n - 2] == 's'))
  }

  lemma HissingEnds(word: string)
    ensures Hissing(word) <==>
      EndsWith(word, "ch") || EndsWith(word, "sh") || EndsWith(word, "ss") || EndsWith(word, "x") || EndsWith(word, "z")
  {
    EndsTwo(word, 'c', 'h');
    EndsTwo(word, 's', 'h');
    EndsTwo(word, 's', 's');
    EndsOne(word, 'x');
    EndsOne(word, 'z');
    assert ['c', 'h'] == "ch" && ['s', 'h'] == "sh" && ['s', 's'] == "ss" && ['x'] == "x" && ['z'] == "z";
  }

  /** The word ends in a consonant and "y". */
  predicate ConsonantY(word: string) {
    |word| >= 2 && word[|word| - 1] == 'y' && word[|word| - 2] !in ['a', 'e', 'i', 'o', 'u']
  }

  lemma Vowels(c: char)
    ensures IsVowel(c) <==> c in ['a', 'e', 'i', 'o', 'u']
  {
    assert "aeiou" == ['a', 'e', 'i', 'o', 'u'];
  }

  /** The plural by the end of the word: a hissing end takes "es", another final "s" stays, a
      consonant's "y" becomes "ies", and all else takes "s". */
  lemma PluralByEnd(word: string)
    requires word != ""
    ensures Hissing(word) ==> Pluralize(word) == word + "es"
    ensures !Hissing(word) && word[|word| - 1] == 's' ==> Pluralize(word) == word
    ensures ConsonantY(word) ==> Pluralize(word) == word[..|word| - 1] + "ies"
    ensures !Hissing(word) && word[|word| - 1] != 's' && !ConsonantY(word) ==> Pluralize(word) == word + "s"
  {
    HissingEnds(word);
    EndsOne(word, 's');
    EndsOne(word, 'y');
    assert ['s'] == "s" && ['y'] == "y";
    if |word| >= 2 {
      Vowels(word[|word| - 2]);
    }
  }

  // ---------- names ----------

  lemma ParseSkips(patterns: seq<string>, name: string)
    requires patterns != [] && !(patterns[0] <= name)
    ensures ParseWith(patterns, name) == ParseWith(patterns[1..], name)
  {
  }

  lemma ParseTakes(patterns: seq<string>, name: string, x: string, methodType: MethodType)
    requires patterns != [] && name == patterns[0] + x && x != "" && PatternType(patterns[0]) == Some(methodType)
    ensures ParseWith(patterns, name) == Some((methodType, Lower(x)))
  {
    assert name[|patterns[0]|..] == x;
  }

  const FROM_LIST := ["List", "Create", "Update", "Delete"]
  const FROM_CREATE := ["Create", "Update", "Delete"]
  const FROM_UPDATE := ["Update", "Delete"]

  lemma Rest()
    ensures CONVENTION_PATTERNS[1..] == FROM_LIST && FROM_LIST[1..] == FROM_CREATE
    ensures FROM_CREATE[1..] == FROM_UPDATE && FROM_UPDATE[1..] == ["Delete"] && ["Delete"][1..] == []
  {
  }

  /** Which pattern starts a name can be told by its first letter. */
  lemma FirstLetter(name: string)
    ensures "Get" <= name ==> name[0] == 'G'
    ensures "List" <= name ==> name[0] == 'L'
    ensures "Create" <= name ==> name[0] == 'C'
    ensures "Update" <= name ==> name[0] == 'U'
    ensures "Delete" <= name ==> name[0] == 'D'
  {
  }

  lemma ParseGet(x: string)
    requires x != ""
    ensures ParseMethodName("Get" + x) == Some((Get, Lower(x)))
  {
    ParseTakes(CONVENTION_PATTERNS, "Get" + x, x, Get);
  }

  lemma ParseList(x: string)
    requires x != ""
    ensures ParseMethodName("List" + x) == Some((List, Lower(x)))
  {
    Rest();
    FirstLetter("List" + x);
    ParseSkips(CONVENTION_PATTERNS, "List" + x);
    ParseTakes(FROM_LIST, "List" + x, x, List);
  }

  lemma ParseCreate(x: string)
    requires x != ""
    ensures ParseMethodName("Create" + x) == Some((Create, Lower(x)))
  {
    Rest();
    FirstLetter("Create" + x);
    ParseSkips(CONVENTION_PATTERNS, "Create" + x);
    ParseSkips(FROM_LIST, "Create" + x);
    ParseTakes(FROM_CREATE, "Create" + x, x, Create);
  }

  lemma ParseUpdate(x: string)
    requires x != ""
    ensures ParseMethodName("Update" + x) == Some((Update, Lower(x)))
  {
    Rest();
    FirstLetter("Update" + x);
    ParseSkips(CONVENTION_PATTERNS, "Update" + x);
    ParseSkips(FROM_LIST, "Update" + x);
    ParseSkips(FROM_CREATE, "Update" + x);
    ParseTakes(FROM_UPDATE, "Update" + x, x, Update);
  }

  lemma ParseDelete(x: string)
    requires x != ""
    ensures ParseMethodName("Delete" + x) == Some((Delete, Lower(x)))
  {
    Rest();
    FirstLetter("Delete" + x);
    ParseSkips(CONVENTION_PATTERNS, "Delete" + x);
    ParseSkips(FROM_LIST, "Delete" + x);
    ParseSkips(FROM_CREATE, "Delete" + x);
    ParseSkips(FROM_UPDATE, "Delete" + x);
    ParseTakes(["Delete"], "Delete" + x, x, Delete);
  }

  /** The verb and path of every conventional name. */
  lemma NamesMapTo(x: string, full: string)
    requires x != ""
    ensures MapMethod("Get" + x, full) == Some(RouteMapping("GET", "/api/" + Pluralize(Lower(x)) + "/:id", full))
    ensures MapMethod("List" + x, full) == Some(RouteMapping("GET", "/api/" + Lower(x), full))
    ensures MapMethod("Create" + x, full) == Some(RouteMapping("POST", "/api/" + Pluralize(Lower(x)), full))
    ensures MapMethod("Update" + x, full) == Some(RouteMapping("PUT", "/api/" + Pluralize(Lower(x)) + "/:id", full))
    ensures MapMethod("Delete" + x, full) == Some(RouteMapping("DELETE", "/api/" + Pluralize(Lower(x)) + "/:id", full))
  {
    ParseGet(x);
    ParseList(x);
    ParseCreate(x);
    ParseUpdate(x);
    ParseDelete(x);
    assert "/api" + "/" == "/api/";
  }

  /** The name is one of the five words with something after it. */
  predicate Conventional(name: string) {
    "Get" < name || "List" < name || "Create" < name || "Update" < name || "Delete" < name
  }

  lemma ConventionalMaps(name: string, full: string)
    requires Conventional(name)
    ensures MapMethod(name, full).Some?
  {
    if "Get" < name {
      assert name == "Get" + name[3..];
      NamesMapTo(name[3..], full);
    } else if "List" < name {
      assert name == "List" + name[4..];
      NamesMapTo(name[4..], full);
    } else if "Create" < name {
      assert name == "Create" + name[6..];
      NamesMapTo(name[6..], full);
    } else if "Update" < name {
      assert name == "Update" + name[6..];
      NamesMapTo(name[6..], full);
    } else {
      assert name == "Delete" + name[6..];
      NamesMapTo(name[6..], full);
    }
  }

  lemma {:induction false} ParsedStartsWithPattern(patterns: seq<string>, name: string) returns (i: nat)
    requires ParseWith(patterns, name).Some?
    ensures i < |patterns| && patterns[i] < name
  {
    if patterns[0] <= name {
      i := 0;
    } else {
      i := ParsedStartsWithPattern(patterns[1..], name);
      i := i + 1;
    }
  }

  /** A method has a route exactly when its name is conventional. */
  lemma MappedExactly(name: string, full: string)
    ensures MapMethod(name, full).Some? <==> Conventional(name)
  {
    if MapMethod(name, full).Some? {
      var i := ParsedStartsWithPattern(CONVENTION_PATTERNS, name);
      assert CONVENTION_PATTERNS[i] in CONVENTION_PATTERNS;
    }
    if Conventional(name) {
      ConventionalMaps(name, full);
    }
  }
}
