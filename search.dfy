/** Resolving a submitted query: which school matches, which alerts are
    shown and which element is scrolled into view (`searchSchools`). */
module Search {
  import opened Schools

  /** A query shorter than this raises the "valid name" warning. */
  const MinQueryLength: nat := 4

  /** Lower-casing of one character, ASCII letters only. */
  function LowerChar(c: char): char {
    if 'A' <= c <= 'Z' then (c as int + 32) as char else c
  }

  /** `toLowerCase`, character by character. */
  function ToLower(s: string): (r: string)
    ensures |r| == |s|
    ensures forall i :: 0 <= i < |s| ==> r[i] == LowerChar(s[i])
  {
    if s == [] then [] else [LowerChar(s[0])] + ToLower(s[1..])
  }

  /** `s.includes(q)`: `q` starts at the front of `s` or somewhere further on. */
  function Includes(s: string, q: string): bool
    decreases |s|
  {
    (|q| <= |s| && s[..|q|] == q) || (s != [] && Includes(s[1..], q))
  }

  /** `q` occurs in `s` at offset `k`. */
  predicate OccursAt(q: string, s: string, k: int) {
    0 <= k && k + |q| <= |s| && s[k..k + |q|] == q
  }

  /** `q` occurs in `s` at some offset: the meaning of `includes`. */
  ghost predicate OccursIn(q: string, s: string) {
    exists k :: OccursAt(q, s, k)
  }

  /** The predicate passed to `find`: the lower-cased name contains the lower-cased query. */
  predicate NameMatches(name: string, query: string) {
    Includes(ToLower(name), ToLower(query))
  }

  /** `document.getElementById(id)` finds an element: the page gives each
      listed school an element whose id is its name, and no element has the
      empty id. */
  predicate HasElement(schools: seq<School>, id: string): (r: bool)
    ensures r ==> exists i :: 0 <= i < |schools| && NameMatches(schools[i].name, id)
  {
    id != "" && exists i :: 0 <= i < |schools| && schools[i].name == id
  }

  /** `find` over the fetched list: the index of the first matching school. */
  function FindIndex(schools: seq<School>, query: string): (r: Option<nat>)
    ensures r.Some? ==> r.value < |schools| && NameMatches(schools[r.value].name, query)
    ensures r.Some? ==> forall j :: 0 <= j < r.value ==> !NameMatches(schools[j].name, query)
    ensures r.None? ==> forall j :: 0 <= j < |schools| ==> !NameMatches(schools[j].name, query)
  {
    if schools == [] then None
    else if NameMatches(schools[0].name, query) then Some(0)
    else match FindIndex(schools[1..], query)
      case None => None
      case Some(i) => Some(i + 1)
  }

  datatype Alert = InvalidName | NotFound(query: string)

  /** The text of each alert. */
  function Message(a: Alert): string {
    match a
    case InvalidName => "Please enter a valid school name with more than 3 characters."
    case NotFound(q) => "Sorry, we couldn't find '" + q + "'. Please try again."
  }

  /** The not-found text quotes the raw query, as typed. */
  lemma NotFoundMessageQuotesQuery(query: string)
    ensures OccursAt(query, Message(NotFound(query)), |"Sorry, we couldn't find '"|)
  {
    var m := Message(NotFound(query));
    var k := |"Sorry, we couldn't find '"|;
    assert m == "Sorry, we couldn't find '" + query + "'. Please try again.";
    assert m[k..k + |query|] == query;
  }

  /** `scrollIntoView` on the element with the given id, or no scrolling. */
  datatype Scroll = ScrollTo(id: string) | NoScroll

  /** What one search does: the `find` result, the alerts in the order they
      are shown, and the scrolling. */
  datatype Outcome = Outcome(found: Option<nat>, alerts: seq<Alert>, scroll: Scroll)

  /** `searchSchools(query)` over the list `schools`, with the page's DOM
      and `alert` turned into the returned outcome. */
  function Resolve(schools: seq<School>, query: string): (r: Outcome)
    ensures r.found == FindIndex(schools, query)
    ensures InvalidName in r.alerts <==> |query| < MinQueryLength || r.found.None?
    ensures NotFound(query) in r.alerts <==> !HasElement(schools, query) && r.found.None?
    ensures forall a :: a in r.alerts ==> a == InvalidName || a == NotFound(query)
    ensures |r.alerts| <= 2
    ensures |r.alerts| == 2 ==> r.alerts == [InvalidName, NotFound(query)]
    ensures HasElement(schools, query) ==> r.scroll == ScrollTo(query)
    ensures !HasElement(schools, query) && r.found.None? ==> r.scroll == NoScroll
    ensures !HasElement(schools, query) && r.found.Some? ==>
              var name := schools[r.found.value].name;
              r.scroll == if HasElement(schools, name) then ScrollTo(name) else NoScroll
  {
    var found := FindIndex(schools, query);
    var warn := |query| < MinQueryLength || found.None?;
    var element := HasElement(schools, query);
    var scroll :=
      if element then ScrollTo(query)
      else if found.Some? then
        var name := schools[found.value].name;
        if HasElement(schools, name) then ScrollTo(name) else NoScroll
      else NoScroll;
    var notFound := !element && found.None?;
    Outcome(found, (if warn then [InvalidName] else []) + (if notFound then [NotFound(query)] else []), scroll)
  }

  // ---------------------------------------------------------------------------
  // Properties of `includes`

  /** `Includes` holds exactly when the query occurs at some offset. */
  lemma IncludesIff(s: string, q: string)
    ensures Includes(s, q) <==> OccursIn(q, s)
  {
    if Includes(s, q) {
      IncludesOccurs(s, q);
    }
    if OccursIn(q, s) {
      var k :| OccursAt(q, s, k);
      OccursIncludes(s, q, k);
    }
  }

  lemma {:induction false} IncludesOccurs(s: string, q: string)
    requires Includes(s, q)
    ensures OccursIn(q, s)
    decreases |s|
  {
    if |q| <= |s| && s[..|q|] == q {
      assert OccursAt(q, s, 0);
    } else {
      IncludesOccurs(s[1..], q);
      var k :| OccursAt(q, s[1..], k);
      assert s[1..][k..k + |q|] == s[k + 1..k + 1 + |q|];
      assert OccursAt(q, s, k + 1);
    }
  }

  lemma {:induction false} OccursIncludes(s: string, q: string, k: int)
    requires OccursAt(q, s, k)
    ensures Includes(s, q)
    decreases k
  {
    if k > 0 {
      assert s[1..][k - 1..k - 1 + |q|] == s[k..k + |q|];
      OccursIncludes(s[1..], q, k - 1);
    }
  }

  /** A string that includes `q` is at least as long as `q`. */
  lemma {:induction false} IncludesLength(s: string, q: string)
    ensures Includes(s, q) ==> |q| <= |s|
    decreases |s|
  {
    if s != [] {
      IncludesLength(s[1..], q);
    }
  }

  // ---------------------------------------------------------------------------
  // Properties of the search

  /** An element with the query as its id belongs to a school named exactly as
      the query, and that school's name contains the query in any case: so
      the exact-name element never exists without a substring match. */
  lemma ExactNameMatches(schools: seq<School>, query: string)
    ensures HasElement(schools, query) ==> FindIndex(schools, query).Some?
  {
    if HasElement(schools, query) {
      var i :| 0 <= i < |schools| && schools[i].name == query;
      var lowered := ToLower(query);
      assert lowered[..|lowered|] == lowered;
      assert NameMatches(schools[i].name, query);
    }
  }

  /** The not-found alert fires exactly when nothing matches, and then the
      warning precedes it and nothing scrolls: the exception for an element
      named exactly as the query can never apply. */
  lemma NoMatchBothAlerts(schools: seq<School>, query: string)
    ensures var r := Resolve(schools, query);
      (NotFound(query) in r.alerts <==> r.found.None?)
      && (r.found.None? ==> r.alerts == [InvalidName, NotFound(query)] && r.scroll == NoScroll)
  {
    ExactNameMatches(schools, query);
  }

  /** For a non-empty query the matched school's own element exists, so the
      fall-back scroll always happens. */
  lemma MatchedNameHasElement(schools: seq<School>, query: string)
    requires query != ""
    ensures var f := FindIndex(schools, query);
      f.Some? ==> HasElement(schools, schools[f.value].name)
  {
    var f := FindIndex(schools, query);
    if f.Some? {
      var name := schools[f.value].name;
      IncludesLength(ToLower(name), ToLower(query));
      assert name != "";
    }
  }

  /** For a non-empty query a search either scrolls or shows the not-found
      alert, never both and never neither; it scrolls to the exact-name
      element when one exists, else to the first match. */
  lemma ScrollOrNotFound(schools: seq<School>, query: string)
    requires query != ""
    ensures var r := Resolve(schools, query);
      && (r.scroll.ScrollTo? <==> NotFound(query) !in r.alerts)
      && (r.scroll.ScrollTo? ==>
            r.scroll.id == (if HasElement(schools, query) then query else schools[r.found.value].name))
  {
    ExactNameMatches(schools, query);
    MatchedNameHasElement(schools, query);
  }

  /** The warning does not stop the search: a short query that matches still
      scrolls, while the warning is shown. */
  lemma ShortQueryStillScrolls(schools: seq<School>, query: string, i: nat)
    requires 0 < |query| < MinQueryLength
    requires i < |schools| && NameMatches(schools[i].name, query)
    ensures var r := Resolve(schools, query);
      InvalidName in r.alerts && NotFound(query) !in r.alerts && r.scroll.ScrollTo?
  {
    ScrollOrNotFound(schools, query);
  }

  /** Element ids depend only on which schools are listed, not on their
      order: the sorted list the page renders has the same ids as the fetched
      list the search runs `find` on. */
  lemma HasElementPermutation(s1: seq<School>, s2: seq<School>, id: string)
    requires multiset(s1) == multiset(s2)
    ensures HasElement(s1, id) == HasElement(s2, id)
  {
    if HasElement(s1, id) {
      var i :| 0 <= i < |s1| && s1[i].name == id;
      assert s1[i] in multiset(s2);
      var j :| 0 <= j < |s2| && s2[j] == s1[i];
    }
    if HasElement(s2, id) {
      var j :| 0 <= j < |s2| && s2[j].name == id;
      assert s2[j] in multiset(s1);
      var i :| 0 <= i < |s1| && s1[i] == s2[j];
    }
  }

  /** Exact-name precedence on a two-school list: "Oak" matches "Oaks"
      first, yet the page scrolls to the element of the school named "Oak",
      and the three-letter query raises the warning as well. */
  lemma ExactNameBeatsFirstMatch()
    ensures var schools := [School(1, "Oaks", 0.0, 0.0, "", "", ""),
                            School(2, "Oak", 0.0, 0.0, "", "", "")];
      var r := Resolve(schools, "Oak");
      r.found == Some(0) && r.scroll == ScrollTo("Oak") && r.alerts == [InvalidName]
  {
    var schools := [School(1, "Oaks", 0.0, 0.0, "", "", ""),
                    School(2, "Oak", 0.0, 0.0, "", "", "")];
    assert ToLower("Oak") == "oak";
    assert ToLower("Oaks") == "oaks";
    assert NameMatches(schools[0].name, "Oak");
    assert HasElement(schools, "Oak") by {
      assert schools[1].name == "Oak";
    }
  }
}
