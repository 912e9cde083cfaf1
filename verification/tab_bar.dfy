/**
 The floating tab bar: which tab the current route belongs to, which tab is
 drawn active, and where the sliding indicator is sent.
 */
module TabBar {
  import opened Text
  import opened Search

  datatype TabBarItem = TabBarItem(name: string, route: string, icon: string, labelText: string)

  /** The indicator's position before any route has been seen. */
  const InitialIndicator: int := 0

  /** The active tab: the position of the first tab whose name occurs in the
      route, or -1 when no tab name does. */
  function ActiveIndex(tabs: seq<TabBarItem>, pathname: string): (r: int)
    ensures -1 <= r < |tabs|
    ensures r == -1 <==> forall i :: 0 <= i < |tabs| ==> !IsSubstring(tabs[i].name, pathname)
    ensures 0 <= r ==> IsSubstring(tabs[r].name, pathname)
                       && forall i :: 0 <= i < r ==> !IsSubstring(tabs[i].name, pathname)
  {
    FindIndex(tabs, (t: TabBarItem) => Includes(pathname, t.name))
  }

  /** Tab `index`, a position in the tab list, is drawn active when it is the
      active index. Only the first tab whose name occurs in the route is. */
  predicate IsActive(tabs: seq<TabBarItem>, pathname: string, index: int)
    ensures IsActive(tabs, pathname, index) ==>
              && 0 <= index < |tabs|
              && IsSubstring(tabs[index].name, pathname)
              && forall i :: 0 <= i < index ==> !IsSubstring(tabs[i].name, pathname)
  {
    0 <= index < |tabs| && index == ActiveIndex(tabs, pathname)
  }

  /** The tabs drawn active for a route. */
  function ActiveTabs(tabs: seq<TabBarItem>, pathname: string): (r: set<int>) {
    set i | 0 <= i < |tabs| && IsActive(tabs, pathname, i)
  }

  /** At most one tab is drawn active: none when the route matches no tab name,
      otherwise the first tab whose name occurs in the route. */
  lemma AtMostOneActiveTab(tabs: seq<TabBarItem>, pathname: string)
    ensures |ActiveTabs(tabs, pathname)| <= 1
    ensures ActiveTabs(tabs, pathname) == {} <==>
              forall i :: 0 <= i < |tabs| ==> !IsSubstring(tabs[i].name, pathname)
    ensures forall k :: k in ActiveTabs(tabs, pathname) ==> IsSubstring(tabs[k].name, pathname)
  {
    var a := ActiveIndex(tabs, pathname);
    if a == -1 {
      assert ActiveTabs(tabs, pathname) == {};
    } else {
      assert ActiveTabs(tabs, pathname) == {a};
    }
  }

  /** The indicator effect: a route with an active tab moves the indicator there,
      a route without one leaves it where it was. */
  function UpdateIndicator(target: int, activeIndex: int): (r: int)
    ensures activeIndex != -1 ==> r == activeIndex
    ensures activeIndex == -1 ==> r == target
  {
    if activeIndex != -1 then activeIndex else target
  }

  /** The indicator target after the bar has seen the routes `paths` in turn. */
  function IndicatorAfter(tabs: seq<TabBarItem>, paths: seq<string>, start: int): (r: int)
    ensures 0 <= start < |tabs| ==> 0 <= r < |tabs|
  {
    if paths == [] then start
    else UpdateIndicator(IndicatorAfter(tabs, paths[..|paths| - 1], start),
                         ActiveIndex(tabs, paths[|paths| - 1]))
  }

  /** From its initial position the indicator stays on a tab, whatever routes
      the bar sees, as long as there is a tab. */
  lemma IndicatorFromInitialOnTab(tabs: seq<TabBarItem>, paths: seq<string>)
    ensures |tabs| > 0 ==> 0 <= IndicatorAfter(tabs, paths, InitialIndicator) < |tabs|
  {
  }

  /** The indicator stays at its start while no route has an active tab. */
  lemma {:induction false} IndicatorStaysWithoutMatch(tabs: seq<TabBarItem>, paths: seq<string>, start: int)
    requires forall k :: 0 <= k < |paths| ==> ActiveIndex(tabs, paths[k]) == -1
    ensures IndicatorAfter(tabs, paths, start) == start
  {
    if paths != [] {
      var init := paths[..|paths| - 1];
      assert forall k :: 0 <= k < |init| ==> init[k] == paths[k];
      IndicatorStaysWithoutMatch(tabs, init, start);
    }
  }

  /** The indicator rests on the active tab of the last route that had one. */
  lemma {:induction false} IndicatorFollowsLastMatch(tabs: seq<TabBarItem>, paths: seq<string>, start: int, k: int)
    requires 0 <= k < |paths| && ActiveIndex(tabs, paths[k]) != -1
    requires forall j :: k < j < |paths| ==> ActiveIndex(tabs, paths[j]) == -1
    ensures IndicatorAfter(tabs, paths, start) == ActiveIndex(tabs, paths[k])
  {
    var init := paths[..|paths| - 1];
    if k < |paths| - 1 {
      assert forall j :: 0 <= j < |init| ==> init[j] == paths[j];
      IndicatorFollowsLastMatch(tabs, init, start, k);
    }
  }
}
