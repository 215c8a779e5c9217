/** Filtering the actual catalog of app.js. */
module Scenarios {
  import opened Catalog
  import opened Text
  import opened Filter

  /** A name matches when, at offset `i`, it agrees with the filter letter by letter up to case. */
  lemma MatchesAt(name: string, filter: string, i: int)
    requires 0 <= i && i + |filter| <= |name|
    requires forall k :: 0 <= k < |filter| ==> UpperChar(name[i + k]) == UpperChar(filter[k])
    ensures Matches(name, filter)
  {
    var u, f := Upper(name), Upper(filter);
    UpperSlice(name, i, i + |filter|);
    assert u[i..i + |filter|] == f by {
      assert forall k :: 0 <= k < |filter| ==> u[i..i + |filter|][k] == f[k];
    }
    IncludesAt(u, f, i);
  }

  /** A name does not match when the filter holds a letter that the name lacks in both cases. */
  lemma MissesLetter(name: string, filter: string, k: int)
    requires 0 <= k < |filter| && IsLower(filter[k])
    requires filter[k] !in name && UpperChar(filter[k]) !in name
    ensures !Matches(name, filter)
  {
    var c := UpperChar(filter[k]);
    assert Upper(filter)[k] == c;
    assert c !in Upper(name);
    IncludesIff(Upper(name), Upper(filter));
  }

  /** Nothing is selected when no name matches. */
  lemma {:induction false} SelectNoneMatching(list: seq<Location>, filter: string)
    requires forall i :: 0 <= i < |list| ==> !Matches(list[i].name, filter)
    ensures Select(list, filter) == []
  {
    if list != [] {
      SelectNoneMatching(list[1..], filter);
    }
  }

  // One lemma per catalog entry and filter text: deciding letter membership in a
  // literal name is cheap once, costly many times over in one proof.

  lemma HouseMatchesHullHouse(filter: string)
    requires filter == "house"
    ensures Matches(Loc[0].name, filter)
  {
    var name := Loc[0].name;
    forall k | 0 <= k < 5 ensures UpperChar(name[5 + k]) == UpperChar(filter[k]) {
      if k == 0 {} else if k == 1 {} else if k == 2 {} else if k == 3 {} else {}
    }
    MatchesAt(name, filter, 5);
  }

  lemma HouseMissesSheddAquarium(filter: string)
    requires filter == "house"
    ensures !Matches(Loc[1].name, filter)
  {
    MissesLetter(Loc[1].name, filter, 1);
  }

  lemma HouseMissesPuiTakCenter(filter: string)
    requires filter == "house"
    ensures !Matches(Loc[2].name, filter)
  {
    MissesLetter(Loc[2].name, filter, 1);
  }

  lemma HouseMissesChicagoUnionStation(filter: string)
    requires filter == "house"
    ensures !Matches(Loc[3].name, filter)
  {
    var front, back := "Chicago ", "Union Station";
    assert Loc[3].name == front + back;
    LacksLetter(front, back, 'e');
    LacksLetter(front, back, 'E');
    MissesLetter(Loc[3].name, filter, 4);
  }

  lemma HouseMatchesCivicOperaHouse(filter: string)
    requires filter == "house"
    ensures Matches(Loc[4].name, filter)
  {
    var name := Loc[4].name;
    forall k | 0 <= k < 5 ensures UpperChar(name[12 + k]) == UpperChar(filter[k]) {
      if k == 0 {} else if k == 1 {} else if k == 2 {} else if k == 3 {} else {}
    }
    MatchesAt(name, filter, 12);
  }

  /** Filtering by "house" keeps Hull House and Civic Opera House, in catalog order;
      Chicago Union Station has no "house" in its name and is not kept. The filter text is
      a parameter pinned by `requires` only to keep the literal out of the solver's way. */
  lemma HouseScenario(filter: string)
    requires filter == "house"
    ensures FilteredObjects(Loc, filter) == [Loc[0], Loc[4]]
  {
    var mid := [Loc[1], Loc[2], Loc[3]];
    assert Loc == [Loc[0]] + mid + [Loc[4]];
    SelectConcat([Loc[0]] + mid, [Loc[4]], filter);
    SelectConcat([Loc[0]], mid, filter);
    HouseKeepsEnds(filter);
    HouseDropsMiddle(filter);
  }

  /** "house" keeps the first and the last catalog entry. */
  lemma HouseKeepsEnds(filter: string)
    requires filter == "house"
    ensures Select([Loc[0]], filter) == [Loc[0]]
    ensures Select([Loc[4]], filter) == [Loc[4]]
  {
    HouseMatchesHullHouse(filter);
    HouseMatchesCivicOperaHouse(filter);
  }

  /** "house" drops the three middle catalog entries. */
  lemma HouseDropsMiddle(filter: string)
    requires filter == "house"
    ensures Select([Loc[1], Loc[2], Loc[3]], filter) == []
  {
    HouseMissesSheddAquarium(filter);
    HouseMissesPuiTakCenter(filter);
    HouseMissesChicagoUnionStation(filter);
    SelectNoneMatching([Loc[1], Loc[2], Loc[3]], filter);
  }

  lemma ZzzMissesHullHouse(filter: string)
    requires filter == "zzz"
    ensures !Matches(Loc[0].name, filter)
  {
    MissesLetter(Loc[0].name, filter, 0);
  }

  lemma ZzzMissesSheddAquarium(filter: string)
    requires filter == "zzz"
    ensures !Matches(Loc[1].name, filter)
  {
    MissesLetter(Loc[1].name, filter, 0);
  }

  lemma ZzzMissesPuiTakCenter(filter: string)
    requires filter == "zzz"
    ensures !Matches(Loc[2].name, filter)
  {
    MissesLetter(Loc[2].name, filter, 0);
  }

  lemma ZzzMissesChicagoUnionStation(filter: string)
    requires filter == "zzz"
    ensures !Matches(Loc[3].name, filter)
  {
    var front, back := "Chicago ", "Union Station";
    assert Loc[3].name == front + back;
    LacksLetter(front, back, 'z');
    LacksLetter(front, back, 'Z');
    MissesLetter(Loc[3].name, filter, 0);
  }

  /** A letter missing from both parts is missing from the whole. */
  lemma LacksLetter(front: string, back: string, c: char)
    requires c !in front && c !in back
    ensures c !in front + back
  {
  }

  lemma ZzzMissesCivicOperaHouse(filter: string)
    requires filter == "zzz"
    ensures !Matches(Loc[4].name, filter)
  {
    var front, back := "Civic ", "Opera House";
    assert Loc[4].name == front + back;
    LacksLetter(front, back, 'z');
    LacksLetter(front, back, 'Z');
    MissesLetter(Loc[4].name, filter, 0);
  }

  /** A filter that no name contains hides everything. As above, the filter text is a
      pinned parameter only to keep the proof cheap. */
  lemma NoMatchScenario(filter: string)
    requires filter == "zzz"
    ensures FilteredObjects(Loc, filter) == []
  {
    ZzzMissesHullHouse(filter);
    ZzzMissesSheddAquarium(filter);
    ZzzMissesPuiTakCenter(filter);
    ZzzMissesChicagoUnionStation(filter);
    ZzzMissesCivicOperaHouse(filter);
    assert forall i :: 0 <= i < |Loc| ==> !Matches(Loc[i].name, filter);
    SelectNoneMatching(Loc, filter);
  }
}
