/** The name filter behind the `filteredObjects` computed of app.js, as pure functions. */
module Filter {
  import opened Catalog
  import opened Text

  /** The test applied to each location: its upper-cased name includes the upper-cased
      filter text. */
  predicate Matches(name: string, filter: string) {
    Includes(Upper(name), Upper(filter))
  }

  /** A name matches the filter exactly when some stretch of the name equals the filter up
      to case. */
  lemma MatchesIffStretch(name: string, filter: string)
    ensures Matches(name, filter) <==> exists i :: OccursAtIgnoringCase(name, filter, i)
  {
    UpperIncludesIff(name, filter);
  }

  /** The non-empty-filter branch: `ko.utils.arrayFilter` over the list with `Matches`. */
  function Select(list: seq<Location>, filter: string): (r: seq<Location>)
    ensures |r| <= |list|
    ensures forall x :: x in r ==> x in list && Matches(x.name, filter)
  {
    if list == [] then []
    else if Matches(list[0].name, filter) then [list[0]] + Select(list[1..], filter)
    else Select(list[1..], filter)
  }

  /** The value of the computed: the whole list for an empty filter, the selection otherwise. */
  function FilteredObjects(list: seq<Location>, filter: string): (r: seq<Location>)
    ensures filter == "" ==> r == list
    ensures forall x :: x in r <==> x in list && (filter == "" || Matches(x.name, filter))
  {
    if filter == "" then list
    else
      assert forall x :: x in Select(list, filter) <==> x in list && Matches(x.name, filter) by {
        forall x ensures x in Select(list, filter) <==> x in list && Matches(x.name, filter) {
          SelectMembership(list, filter, x);
        }
      }
      Select(list, filter)
  }

  /** `a` is `b` with some elements dropped, the rest kept in order. */
  ghost predicate IsSubsequence<T>(a: seq<T>, b: seq<T>)
    decreases |b|
  {
    if a == [] then true
    else if b == [] then false
    else (a[0] == b[0] && IsSubsequence(a[1..], b[1..])) || IsSubsequence(a, b[1..])
  }

  /** Some location of `s` is called `title`. */
  ghost predicate HasName(s: seq<Location>, title: string) {
    exists u :: 0 <= u < |s| && s[u].name == title
  }

  /** Extending a prefix by one entry adds exactly that entry's name: the step the marker
      reconciliation loop takes over the filtered list. */
  lemma HasNameExtend(s: seq<Location>, t: int, title: string)
    requires 0 <= t < |s|
    ensures HasName(s[..t + 1], title) == (HasName(s[..t], title) || s[t].name == title)
  {
    if HasName(s[..t + 1], title) {
      var u :| 0 <= u < t + 1 && s[..t + 1][u].name == title;
      if u < t {
        assert s[..t][u].name == title;
      }
    }
    if HasName(s[..t], title) {
      var u :| 0 <= u < t && s[..t][u].name == title;
      assert s[..t + 1][u].name == title;
    }
    if s[t].name == title {
      assert s[..t + 1][t].name == title;
    }
  }

  /** A location is selected exactly when it is in the list and its name matches. */
  lemma {:induction false} SelectMembership(list: seq<Location>, filter: string, x: Location)
    ensures x in Select(list, filter) <==> x in list && Matches(x.name, filter)
  {
    if list != [] {
      SelectMembership(list[1..], filter, x);
      assert list == [list[0]] + list[1..];
    }
  }

  /** The selection keeps the list order. */
  lemma {:induction false} SelectIsSubsequence(list: seq<Location>, filter: string)
    ensures IsSubsequence(Select(list, filter), list)
  {
    if list != [] {
      SelectIsSubsequence(list[1..], filter);
      var rest := Select(list[1..], filter);
      if Matches(list[0].name, filter) {
        assert ([list[0]] + rest)[1..] == rest;
      } else if rest != [] {
        assert IsSubsequence(rest, list[1..]);
      }
    }
  }

  /** Selecting from a list without duplicates gives a list without duplicates. */
  lemma {:induction false} SelectDistinct(list: seq<Location>, filter: string)
    requires Distinct(list)
    ensures Distinct(Select(list, filter))
  {
    if list != [] {
      assert Distinct(list[1..]);
      SelectDistinct(list[1..], filter);
      var rest := Select(list[1..], filter);
      if Matches(list[0].name, filter) {
        assert list[0] !in list[1..];
        assert list[0] !in rest;
        var r := [list[0]] + rest;
        forall i, j | 0 <= i < j < |r| ensures r[i] != r[j] {
          if i == 0 {
            assert r[j] == rest[j - 1];
          } else {
            assert r[i] == rest[i - 1] && r[j] == rest[j - 1];
          }
        }
      }
    }
  }

  /** Selection distributes over concatenation: the list is scanned one entry at a time. */
  lemma {:induction false} SelectConcat(a: seq<Location>, b: seq<Location>, filter: string)
    ensures Select(a + b, filter) == Select(a, filter) + Select(b, filter)
  {
    if a != [] {
      assert (a + b)[0] == a[0] && (a + b)[1..] == a[1..] + b;
      SelectConcat(a[1..], b, filter);
    } else {
      assert a + b == b;
    }
  }

  /** Filtering the filtered result again with the same text changes nothing. */
  lemma {:induction false} SelectIdempotent(list: seq<Location>, filter: string)
    ensures Select(Select(list, filter), filter) == Select(list, filter)
  {
    if list != [] {
      SelectIdempotent(list[1..], filter);
      var rest := Select(list[1..], filter);
      if Matches(list[0].name, filter) {
        assert ([list[0]] + rest)[0] == list[0] && ([list[0]] + rest)[1..] == rest;
      }
    }
  }

  /** When every name matches, the selection is the list itself. */
  lemma {:induction false} SelectAllMatching(list: seq<Location>, filter: string)
    requires forall x :: x in list ==> Matches(x.name, filter)
    ensures Select(list, filter) == list
  {
    if list != [] {
      assert list[0] in list;
      SelectAllMatching(list[1..], filter);
    }
  }

  /** The empty text matches every name, so the empty-filter shortcut returns what the
      general selection would have returned. */
  lemma EmptyFilterSelectsAll(list: seq<Location>)
    ensures Select(list, "") == list
    ensures FilteredObjects(list, "") == list
  {
    forall x | x in list ensures Matches(x.name, "") {
      IncludesEmpty(Upper(x.name));
    }
    SelectAllMatching(list, "");
  }

  /** The filter ignores letter case: filtering by a text and by its upper-cased form agree. */
  lemma MatchesIgnoresCase(name: string, filter: string)
    ensures Matches(name, filter) == Matches(Upper(name), Upper(filter))
  {
    UpperIdempotent(name);
    UpperIdempotent(filter);
  }

  /** After a non-empty filter, a marker titled with a list entry's name is shown exactly
      when that name matches: the nested reconciliation loop finds a selected location of
      that name if and only if the name passes the filter. */
  lemma NameSelectedIffMatches(list: seq<Location>, filter: string, i: int)
    requires 0 <= i < |list|
    ensures HasName(Select(list, filter), list[i].name) <==> Matches(list[i].name, filter)
  {
    var r := Select(list, filter);
    if HasName(r, list[i].name) {
      var u :| 0 <= u < |r| && r[u].name == list[i].name;
      assert r[u] in r;
    }
    if Matches(list[i].name, filter) {
      SelectMembership(list, filter, list[i]);
      var u :| 0 <= u < |r| && r[u] == list[i];
    }
  }
}
