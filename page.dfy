/** The page component: its five state cells, the handlers that change them,
    the sorted view it renders and the search it runs on submit. */
module Page {
  import opened Schools
  import opened StableSort
  import opened Search

  /** The comparator of the location branch, `distanceA - distanceB`: `a` may
      stay in front of `b` when that difference is not positive.  `km` stands
      for the great-circle distance in kilometres.  Over reals this comparator
      is always consistent. */
  function ByDistance(km: (Coords, Coords) -> real, user: Coords): (leq: (School, School) -> bool)
    ensures forall a, b :: leq(a, b) <==> km(user, Position(a)) - km(user, Position(b)) <= 0.0
    ensures TotalPreorder(leq)
  {
    (a: School, b: School) => km(user, Position(a)) <= km(user, Position(b))
  }

  /** The comparator of the other branch, `a.name.localeCompare(b.name)`;
      `nameLeq(x, y)` stands for `x.localeCompare(y) <= 0`.  It is consistent
      whenever collation is. */
  function ByName(nameLeq: (string, string) -> bool): (leq: (School, School) -> bool)
    ensures forall a, b :: leq(a, b) <==> nameLeq(a.name, b.name)
    ensures TotalPreorder(nameLeq) ==> TotalPreorder(leq)
  {
    (a: School, b: School) => nameLeq(a.name, b.name)
  }

  /** The comparator `sortSchools` picks from the location flag. */
  function ViewOrder(location: bool, user: Coords, km: (Coords, Coords) -> real,
                     nameLeq: (string, string) -> bool): (School, School) -> bool
  {
    if location then ByDistance(km, user) else ByName(nameLeq)
  }

  /** The comparator `sortSchools` uses is consistent: always with the
      location, and without it when collation is a total preorder on names. */
  lemma ViewOrderIsPreorder(location: bool, user: Coords, km: (Coords, Coords) -> real,
                            nameLeq: (string, string) -> bool)
    requires !location ==> TotalPreorder(nameLeq)
    ensures TotalPreorder(ViewOrder(location, user, km, nameLeq))
  {
  }

  /** What `sortSchools` returns for a fetched list `s`: the same schools,
      nearest first when the location is known and by name otherwise, with
      schools that compare equal kept in their fetched order. */
  lemma SortedViewProperties(location: bool, user: Coords, km: (Coords, Coords) -> real,
                             nameLeq: (string, string) -> bool, s: seq<School>)
    requires !location ==> TotalPreorder(nameLeq)
    ensures var r := Sort(ViewOrder(location, user, km, nameLeq), s);
      && multiset(r) == multiset(s)
      && (location ==> forall i, j :: 0 <= i < j < |r| ==> km(user, Position(r[i])) <= km(user, Position(r[j])))
      && (!location ==> forall i, j :: 0 <= i < j < |r| ==> nameLeq(r[i].name, r[j].name))
      && KeepsEqualsInOrder(ViewOrder(location, user, km, nameLeq), r, s)
  {
    var order := ViewOrder(location, user, km, nameLeq);
    ViewOrderIsPreorder(location, user, km, nameLeq);
    SortPermutes(order, s);
    SortSorted(order, s);
    SortStable(order, s);
  }

  /** The page renders the sorted view, the search runs `find` on the fetched
      list: both hold an element for the same ids. */
  lemma RenderedIdsAreFetchedNames(order: (School, School) -> bool, s: seq<School>, id: string)
    ensures HasElement(Sort(order, s), id) == HasElement(s, id)
  {
    SortPermutes(order, s);
    HasElementPermutation(Sort(order, s), s, id);
  }

  /** Before the list has arrived (or when the body has no `schools` field)
      `find` on the missing list gives nothing and no school element exists:
      a search shows both alerts and scrolls nowhere. */
  lemma SearchBeforeFetch(query: string)
    ensures Resolve([], query) == Outcome(None, [InvalidName, NotFound(query)], NoScroll)
  {
  }

  class Home {
    /** The fetched response body's `schools` list; None when the body has
        no such field, as the initial `[]` has not. */
    var schools: Option<array<School>>
    var location: bool
    var userLocation: Coords
    var searchQuery: string
    var hoveredSchool: Option<School>
    /** Positions delivered by successful geolocation callbacks, oldest first. */
    ghost var fixes: seq<Coords>

    /** The stored coordinates are the latest fix, or the initial (0, 0)
        before any; the flag is set only after some fix arrived. */
    ghost predicate Valid()
      reads this
    {
      && userLocation == (if fixes == [] then Coords(0.0, 0.0) else fixes[|fixes| - 1])
      && (location ==> fixes != [])
    }

    /** The initial values of the five `useState` cells. */
    constructor ()
      ensures Valid() && fixes == []
      ensures schools == None && !location && userLocation == Coords(0.0, 0.0)
      ensures searchQuery == "" && hoveredSchool == None
    {
      schools := None;
      location := false;
      userLocation := Coords(0.0, 0.0);
      searchQuery := "";
      hoveredSchool := None;
      fixes := [];
    }

    /** The fetched list the search runs on, empty when there is none. */
    function Listed(): seq<School>
      reads this, if schools.Some? then {schools.value} else {}
    {
      if schools.Some? then schools.value[..] else []
    }

    /** `setSchools(data)` once the fetch has answered. */
    method SetSchools(data: Option<array<School>>)
      requires Valid()
      modifies this`schools
      ensures Valid() && schools == data
    {
      schools := data;
    }

    /** The geolocation success callback: store the coordinates, set the flag. */
    method Success(position: Coords)
      requires Valid()
      modifies this`userLocation, this`location, this`fixes
      ensures Valid() && location && userLocation == position
      ensures fixes == old(fixes) + [position]
    {
      userLocation := position;
      location := true;
      fixes := fixes + [position];
    }

    /** The geolocation error callback: clear the flag, keep the coordinates. */
    method Error()
      requires Valid()
      modifies this`location
      ensures Valid() && !location && userLocation == old(userLocation)
      ensures forall s: School, km: (Coords, Coords) -> real :: GetDistance(s, km) == None
    {
      location := false;
    }

    method HandleSearchChange(value: string)
      requires Valid()
      modifies this`searchQuery
      ensures Valid() && searchQuery == value
    {
      searchQuery := value;
    }

    method HandleHover(school: School)
      requires Valid()
      modifies this`hoveredSchool
      ensures Valid() && hoveredSchool == Some(school)
    {
      hoveredSchool := Some(school);
    }

    method HandleHoverLeave()
      requires Valid()
      modifies this`hoveredSchool
      ensures Valid() && hoveredSchool == None
    {
      hoveredSchool := None;
    }

    /** The submit button is enabled only while the query is not empty. */
    predicate SubmitEnabled()
      reads this
    {
      searchQuery != ""
    }

    /** `getDistance`: no distance without a location; otherwise the distance
        from the latest fix, never from the initial placeholder. */
    function GetDistance(school: School, km: (Coords, Coords) -> real): (d: Option<real>)
      requires Valid()
      reads this
      ensures d.None? <==> !location
      ensures d.Some? ==> fixes != [] && d.value == km(fixes[|fixes| - 1], Position(school))
    {
      if location then Some(km(userLocation, Position(school))) else None
    }

    /** `sortSchools`: copy the fetched list, then sort the copy in place with
        the comparator the location flag selects.  Nothing else changes; in
        particular the fetched array keeps its order. */
    method SortSchools(km: (Coords, Coords) -> real, nameLeq: (string, string) -> bool)
      returns (view: Option<array<School>>)
      ensures view.None? <==> schools.None?
      ensures view.Some? ==> fresh(view.value)
      ensures view.Some? ==> view.value[..] == Sort(ViewOrder(location, userLocation, km, nameLeq), Listed())
      ensures Listed() == old(Listed())
    {
      if schools.None? {
        return None;
      }
      var list := schools.value;
      var copy := new School[list.Length](i requires 0 <= i < list.Length reads list => list[i]);
      assert copy[..] == list[..];
      SortInPlace(copy, ViewOrder(location, userLocation, km, nameLeq));
      view := Some(copy);
    }

    /** `searchSchools(schoolName)`: resolve it against the fetched list, then
        clear the query whatever the outcome. */
    method SearchSchools(schoolName: string) returns (outcome: Outcome)
      requires Valid()
      modifies this`searchQuery
      ensures Valid() && searchQuery == ""
      ensures outcome == Resolve(Listed(), schoolName)
    {
      outcome := Resolve(Listed(), schoolName);
      searchQuery := "";
    }

    /** `handleSearch`: search for the current query; afterwards the submit
        button is disabled again. */
    method HandleSearch() returns (outcome: Outcome)
      requires Valid()
      modifies this`searchQuery
      ensures Valid() && !SubmitEnabled()
      ensures outcome == Resolve(Listed(), old(searchQuery))
    {
      outcome := SearchSchools(searchQuery);
    }
  }
}
