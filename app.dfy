/** The stateful part of app.js: the map markers, the view model with its filter, and the
    per-marker info-window lifecycle. The page-global `markers` array and the log of
    summary requests are fields of the single view model. */
module App {
  import opened Wrappers
  import opened Catalog
  import opened Text
  import opened Filter
  import opened Popup

  /** A map marker. `infoWindow == None` is the source's `infoWindow: null`; a window is
      held by exactly one marker, so it is kept as a value inside that marker. */
  class Marker {
    const title: string
    const id: nat
    const position: Coord
    var visible: bool
    var infoWindow: Option<InfoWindow>

    constructor (title: string, id: nat, position: Coord)
      ensures this.title == title && this.id == id && this.position == position
      ensures visible && infoWindow == None
    {
      this.title := title;
      this.id := id;
      this.position := position;
      visible := true;
      infoWindow := None;
    }

    /** `marker.setVisible(shown)`. */
    method SetVisible(shown: bool)
      modifies this
      ensures visible == shown && infoWindow == old(infoWindow)
    {
      visible := shown;
    }

    /** `marker.infoWindow.close()`: the window stays attached to the marker. */
    method CloseWindow()
      requires infoWindow.Some?
      modifies this
      ensures infoWindow == Some(old(infoWindow).value.(open := false))
      ensures visible == old(visible)
    {
      infoWindow := Some(infoWindow.value.(open := false));
    }

    /** `makeInfoWindow` on a marker that already holds a window: close it and open it
        again, with the same content and no new request. */
    method Reshow()
      requires infoWindow.Some?
      modifies this
      ensures infoWindow == Some(old(infoWindow).value.(open := true))
      ensures visible == old(visible)
    {
      infoWindow := Some(infoWindow.value.(open := false));
      infoWindow := Some(infoWindow.value.(open := true));
    }

    /** The window's `closeclick` handler: the user closed the window and the marker
        forgets it, so that the next request for this marker fetches afresh. */
    method CloseClick()
      requires infoWindow.Some? && infoWindow.value.open
      modifies this
      ensures infoWindow == None && visible == old(visible)
    {
      infoWindow := None;
    }
  }

  /** The outcome of `setLocation`: it returns normally or throws a TypeError. */
  datatype Outcome = Completed | Thrown

  class ViewModel {
    /** The page-global catalog `loc`, which `makeInfoWindow` indexes by marker id. */
    const loc: seq<Location>
    var locationList: seq<Location>
    var selectedLocation: Location
    var searchFilter: string
    var filteredObjects: seq<Location>
    /** The page-global `markers` array. */
    var markers: seq<Marker>
    /** The summary URLs requested so far, in order. */
    var requests: seq<string>

    /** The list is the catalog, markers are distinct objects, and every marker's id
        indexes the catalog. */
    ghost predicate Wellformed()
      reads this`locationList, this`markers
    {
      && locationList == loc
      && (forall i, j :: 0 <= i < j < |markers| ==> markers[i] != markers[j])
      && (forall i :: 0 <= i < |markers| ==> markers[i].id < |loc|)
    }

    /** Wellformed, and the computed's value agrees with the current filter text. */
    ghost predicate Valid()
      reads this`locationList, this`markers, this`searchFilter, this`filteredObjects
    {
      Wellformed() && filteredObjects == FilteredObjects(locationList, searchFilter)
    }

    /** Marker `i` belongs to location `i`: what `genMap` sets up and `setLocation`
        relies on. */
    ghost predicate Correlated()
      reads this`locationList, this`markers
    {
      && |markers| == |locationList|
      && forall i :: 0 <= i < |markers| ==>
           markers[i].id == i && markers[i].title == locationList[i].name
    }

    /** Every marker keeps its window across the step (none is attached or dropped),
        with the same content. */
    twostate predicate WindowsKept()
      reads this`markers, markers
    {
      && markers == old(markers)
      && forall i :: 0 <= i < |markers| ==>
           && markers[i].infoWindow.Some? == old(markers[i].infoWindow).Some?
           && (markers[i].infoWindow.Some? ==>
                 markers[i].infoWindow.value.content == old(markers[i].infoWindow).value.content)
    }

    /** A held window is open exactly when its marker is visible. */
    ghost predicate OpenIffVisible()
      reads this`markers, markers
    {
      forall i :: 0 <= i < |markers| ==>
        markers[i].infoWindow.Some? ==> markers[i].infoWindow.value.open == markers[i].visible
    }

    /** A marker is visible when the filter is empty or a filtered location carries its
        title. */
    ghost predicate VisibleAsFiltered()
      reads this`markers, this`searchFilter, this`filteredObjects, markers
    {
      forall i :: 0 <= i < |markers| ==>
        markers[i].visible == (searchFilter == "" || HasName(filteredObjects, markers[i].title))
    }

    /** The markers after the computed ran, compared with before: visibility follows the
        filter, each marker keeps its window, and the window is open exactly when its
        marker is visible. */
    twostate predicate Reconciled()
      reads this`markers, this`searchFilter, this`filteredObjects, markers
    {
      WindowsKept() && OpenIffVisible() && VisibleAsFiltered()
    }

    /** With marker `i` belonging to location `i`, a reconciled non-empty filter shows
        exactly the markers whose own title matches the filter text. */
    lemma VisibleIffTitleMatches()
      requires Valid() && Correlated() && VisibleAsFiltered() && searchFilter != ""
      ensures forall i :: 0 <= i < |markers| ==>
        markers[i].visible == Matches(markers[i].title, searchFilter)
    {
      forall i | 0 <= i < |markers|
        ensures markers[i].visible == Matches(markers[i].title, searchFilter)
      {
        NameSelectedIffMatches(locationList, searchFilter, i);
      }
    }

    /** What `makeInfoWindow(m)` does: a marker without a window gets a fresh one, exactly
        one summary request is issued for its catalog entry, and the window shows the
        outcome; a marker holding a window has it reopened and nothing is requested. */
    twostate predicate ShownBy(m: Marker, fetch: string -> FetchOutcome)
      requires m.id < |loc|
      reads this`requests, m
    {
      && m.visible == old(m.visible)
      && if old(m.infoWindow).Some? then
           && requests == old(requests)
           && m.infoWindow == Some(old(m.infoWindow).value.(open := true))
         else
           var url := SummaryUrl(loc[m.id].pageTitle);
           && requests == old(requests) + [url]
           && m.infoWindow == Some(WindowAfter(m.title, fetch(url)))
    }

    /** `new viewModel()`: copy the catalog into the list, select its first entry, start
        with an empty filter, and evaluate the computed once. */
    constructor ()
      ensures Valid()
      ensures loc == Loc && locationList == Loc && selectedLocation == Loc[0]
      ensures searchFilter == "" && filteredObjects == Loc
      ensures markers == [] && requests == []
    {
      var list := [];
      for i := 0 to |Loc|
        invariant list == Loc[..i]
      {
        list := list + [Loc[i]];
      }
      loc := Loc;
      locationList := list;
      selectedLocation := list[0];
      searchFilter := "";
      filteredObjects := [];
      markers := [];
      requests := [];
      new;
      Recompute();
    }

    /** The body of the `filteredObjects` computed: derive the filtered list from the
        filter text and reconcile marker visibility and windows with it. */
    method Recompute()
      requires Wellformed()
      modifies this`filteredObjects, markers
      ensures Valid() && Reconciled()
    {
      var filter := searchFilter;
      if filter == "" {
        ShowAll();
        filteredObjects := locationList;
      } else {
        var filtered := Select(locationList, filter);
        HideAll();
        ShowNamed(filtered);
        filteredObjects := filtered;
      }
    }

    /** Second pass of a non-empty filter: for each filtered location in turn, show the
        markers titled with its name and reopen their windows. */
    method ShowNamed(filtered: seq<Location>)
      requires Wellformed() && OpenIffVisible()
      requires forall i :: 0 <= i < |markers| ==> !markers[i].visible
      modifies markers
      ensures WindowsKept() && OpenIffVisible()
      ensures forall i :: 0 <= i < |markers| ==>
        markers[i].visible == HasName(filtered, markers[i].title)
    {
      for t := 0 to |filtered|
        invariant WindowsKept() && OpenIffVisible()
        invariant forall k :: 0 <= k < |markers| ==>
          markers[k].visible == HasName(filtered[..t], markers[k].title)
      {
        forall k | 0 <= k < |markers| {
          HasNameExtend(filtered, t, markers[k].title);
        }
        ShowTitled(filtered[t].name);
      }
      assert filtered[..|filtered|] == filtered;
    }

    /** The empty-filter pass: show every marker and reopen every window it holds. */
    method ShowAll()
      requires Wellformed()
      modifies markers
      ensures WindowsKept() && OpenIffVisible()
      ensures forall i :: 0 <= i < |markers| ==> markers[i].visible
    {
      for i := 0 to |markers|
        invariant WindowsKept()
        invariant forall k :: 0 <= k < i ==>
          markers[k].visible && (markers[k].infoWindow.Some? ==> markers[k].infoWindow.value.open)
      {
        var marker := markers[i];
        marker.SetVisible(true);
        if marker.infoWindow != None {
          marker.Reshow();
        }
      }
    }

    /** First pass of a non-empty filter: hide every marker and close any window it
        holds, keeping the window attached. */
    method HideAll()
      requires Wellformed()
      modifies markers
      ensures WindowsKept() && OpenIffVisible()
      ensures forall i :: 0 <= i < |markers| ==> !markers[i].visible
    {
      for i := 0 to |markers|
        invariant WindowsKept()
        invariant forall k :: 0 <= k < i ==>
          !markers[k].visible && (markers[k].infoWindow.Some? ==> !markers[k].infoWindow.value.open)
      {
        var marker := markers[i];
        marker.SetVisible(false);
        if marker.infoWindow != None {
          marker.CloseWindow();
        }
      }
    }

    /** One step of the second pass: every marker titled `name` is shown again and a
        window it holds is reopened; the other markers are left alone. */
    method ShowTitled(name: string)
      requires Wellformed()
      modifies markers
      ensures WindowsKept()
      ensures forall i :: 0 <= i < |markers| ==>
        markers[i].visible == (old(markers[i].visible) || markers[i].title == name)
      ensures forall i :: 0 <= i < |markers| ==> markers[i].infoWindow.Some? ==>
        markers[i].infoWindow.value.open == (old(markers[i].infoWindow).value.open || markers[i].title == name)
    {
      for j := 0 to |markers|
        invariant WindowsKept()
        invariant forall k :: 0 <= k < |markers| ==>
          markers[k].visible == (old(markers[k].visible) || (k < j && markers[k].title == name))
        invariant forall k :: 0 <= k < |markers| ==> markers[k].infoWindow.Some? ==>
          markers[k].infoWindow.value.open
            == (old(markers[k].infoWindow).value.open || (k < j && markers[k].title == name))
      {
        var marker := markers[j];
        if marker.title == name {
          marker.SetVisible(true);
          if marker.infoWindow != None {
            marker.Reshow();
          }
        }
      }
    }

    /** Typing into the filter box: Knockout notifies the computed only when the text
        actually changes. */
    method SetSearchFilter(filter: string)
      requires Valid()
      modifies this`searchFilter, this`filteredObjects, markers
      ensures Valid() && searchFilter == filter
      ensures filter == old(searchFilter) ==>
        filteredObjects == old(filteredObjects) && forall i :: 0 <= i < |markers| ==> unchanged(markers[i])
      ensures filter != old(searchFilter) ==> Reconciled()
    {
      if filter != searchFilter {
        searchFilter := filter;
        Recompute();
      }
    }

    /** `makeInfoWindow(marker)`, with the network answer to the summary request given as
        `fetch` and applied at once. Also what a click on a marker runs. */
    method MakeInfoWindow(m: Marker, fetch: string -> FetchOutcome)
      requires Wellformed() && m in markers
      modifies this`requests, m
      ensures m.id < |loc| && ShownBy(m, fetch)
    {
      if m.infoWindow == None {
        var url := SummaryUrl(loc[m.id].pageTitle);
        requests := requests + [url];
        m.infoWindow := Some(InfoWindow(false, ""));
        m.infoWindow := Some(WindowAfter(m.title, fetch(url)));
      } else {
        m.Reshow();
      }
    }

    /** A click on a list entry: select the location, then show the window of the marker
        at its index. Looking up a location that is not in the list, or a marker that does
        not exist yet, throws. */
    method SetLocation(location: Location, fetch: string -> FetchOutcome) returns (r: Outcome)
      requires Valid()
      modifies this`selectedLocation, this`requests, markers
      ensures Valid() && selectedLocation == location
      ensures r == Completed <==> 0 <= IndexOf(locationList, location) < |markers|
      ensures r == Thrown ==>
        requests == old(requests) && forall i :: 0 <= i < |markers| ==> unchanged(markers[i])
      ensures r == Completed ==>
        var l := IndexOf(locationList, location);
        && markers[l].id < |loc| && ShownBy(markers[l], fetch)
        && forall i :: 0 <= i < |markers| && i != l ==> unchanged(markers[i])
      ensures Correlated() ==> (r == Completed <==> location in locationList)
      ensures Correlated() && r == Completed ==>
        var m := markers[IndexOf(locationList, location)];
        && m.title == location.name
        && (old(m.infoWindow) == None ==> requests == old(requests) + [SummaryUrl(location.pageTitle)])
    {
      selectedLocation := location;
      var l := IndexOf(locationList, location);
      if l < 0 || l >= |markers| {
        return Thrown;
      }
      var m := markers[l];
      MakeInfoWindow(m, fetch);
      assert Correlated() ==> m.id == l && m.title == location.name && loc[m.id] == location;
      return Completed;
    }

    /** The marker-building loop of `genMap`: one marker per location, in list order,
        marker `i` with id `i`, the location's name as title, no window. */
    method GenMap()
      requires Valid()
      modifies this`markers
      ensures Valid()
      ensures |markers| == |old(markers)| + |locationList|
      ensures markers[..|old(markers)|] == old(markers)
      ensures forall i :: 0 <= i < |locationList| ==>
        var m := markers[|old(markers)| + i];
        && fresh(m) && m.id == i && m.title == locationList[i].name
        && m.position == locationList[i].location && m.visible && m.infoWindow == None
      ensures old(markers) == [] ==> Correlated()
    {
      var locations := locationList;
      var n := |markers|;
      for i := 0 to |locations|
        invariant Valid()
        invariant |markers| == n + i
        invariant markers[..n] == old(markers)
        invariant forall j :: n <= j < n + i ==>
          && fresh(markers[j]) && markers[j].id == j - n && markers[j].title == locations[j - n].name
          && markers[j].position == locations[j - n].location
          && markers[j].visible && markers[j].infoWindow == None
      {
        var marker := new Marker(locations[i].name, i, locations[i].location);
        ghost var before := markers;
        markers := markers + [marker];
        assert forall k :: 0 <= k < n + i ==> markers[k] == before[k];
      }
    }
  }

  /** The user closes a marker's window, then asks for it again: the second request for
      the marker fetches afresh and builds a new window. */
  method CloseThenReopen(vm: ViewModel, m: Marker, fetch: string -> FetchOutcome)
    requires vm.Wellformed() && m in vm.markers
    requires m.infoWindow.Some? && m.infoWindow.value.open
    modifies vm`requests, m
    ensures m.id < |vm.loc|
    ensures vm.requests == old(vm.requests) + [SummaryUrl(vm.loc[m.id].pageTitle)]
    ensures m.infoWindow == Some(WindowAfter(m.title, fetch(SummaryUrl(vm.loc[m.id].pageTitle))))
  {
    m.CloseClick();
    vm.MakeInfoWindow(m, fetch);
  }

  /** A non-empty filter followed by clearing it: every marker is visible again and every
      window a marker held before is held still, with the same content, and open. */
  method FilterThenClear(vm: ViewModel, filter: string)
    requires vm.Valid() && vm.searchFilter == "" && filter != ""
    modifies vm`searchFilter, vm`filteredObjects, vm.markers
    ensures vm.Valid() && vm.searchFilter == "" && vm.filteredObjects == vm.locationList
    ensures forall i :: 0 <= i < |vm.markers| ==>
      && vm.markers[i].visible
      && vm.markers[i].infoWindow.Some? == old(vm.markers[i].infoWindow).Some?
      && (vm.markers[i].infoWindow.Some? ==>
            vm.markers[i].infoWindow.value.open
            && vm.markers[i].infoWindow.value.content == old(vm.markers[i].infoWindow).value.content)
  {
    vm.SetSearchFilter(filter);
    label filtered:
    vm.SetSearchFilter("");
    assert forall i :: 0 <= i < |vm.markers| ==>
      old@filtered(vm.markers[i].infoWindow).Some? == old(vm.markers[i].infoWindow).Some?;
  }

  /** Each marker owns its window, so two markers can show their windows at once. */
  method TwoWindowsOpen(vm: ViewModel)
    requires vm.Valid() && vm.markers == [] && vm.loc == Loc
    modifies vm`markers, vm`requests
    ensures |vm.markers| == |vm.loc|
    ensures vm.markers[0].infoWindow.Some? && vm.markers[0].infoWindow.value.open
    ensures vm.markers[1].infoWindow.Some? && vm.markers[1].infoWindow.value.open
  {
    vm.GenMap();
    var failing := (url: string) => Failed;
    vm.MakeInfoWindow(vm.markers[0], failing);
    vm.MakeInfoWindow(vm.markers[1], failing);
  }
}
