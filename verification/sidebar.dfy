/** The sidebar's navigation list and the rule that highlights the current page. */
module Sidebar {
  import opened JsText

  datatype Icon = BarChart3 | GitBranch | Container | Activity

  datatype NavItem = NavItem(name: string, href: string, icon: Icon)

  /** The fixed `navigation` list, in display order. */
  const Navigation: seq<NavItem> := [
    NavItem("Dashboard", "/", BarChart3),
    NavItem("Pipelines", "/pipelines", GitBranch),
    NavItem("Containers", "/containers", Container),
    NavItem("Monitoring", "/monitoring", Activity),
    NavItem("Kubernetes", "/kubernetes", Activity)
  ]

  /**
   * `isActive(path)` at the current `pathname`: the root only on the root
   * itself, any other link on every pathname that starts with it.
   */
  function IsActive(pathname: string, path: string): (active: bool)
    ensures path == "/" ==> (active <==> pathname == "/")
    ensures path != "/" ==> (active <==> |path| <= |pathname| && pathname[..|path|] == path)
  {
    if path == "/" then pathname == "/" else StartsWith(pathname, path)
  }

  /** The link of the page being shown is highlighted. */
  lemma OwnLinkActive(i: nat)
    requires i < |Navigation|
    ensures IsActive(Navigation[i].href, Navigation[i].href)
  {
  }

  /** There is no segment boundary: any extension of a non-root link, such as "/pipelinesX", highlights it. */
  lemma ExtensionActive(href: string, rest: string)
    requires href != "/"
    ensures IsActive(href + rest, href)
  {
    assert (href + rest)[..|href|] == href;
  }

  /** Whatever the pathname, at most one navigation entry is highlighted. */
  lemma AtMostOneActive(pathname: string, i: nat, j: nat)
    requires i < j < |Navigation|
    ensures !(IsActive(pathname, Navigation[i].href) && IsActive(pathname, Navigation[j].href))
  {
    var a, b := Navigation[i].href, Navigation[j].href;
    assert |b| >= 2 && IsActive(pathname, b) ==> |pathname| >= 2 && pathname[1] == b[1];
    if i > 0 {
      assert a[1] != b[1];
      assert IsActive(pathname, a) ==> |pathname| >= 2 && pathname[1] == a[1];
    }
  }

  /** The highlighted entries of the list, in order. */
  function ActiveItems(pathname: string, items: seq<NavItem>): (active: seq<NavItem>)
    ensures |active| <= |items|
    ensures forall it :: it in active <==> it in items && IsActive(pathname, it.href)
  {
    if items == [] then []
    else (if IsActive(pathname, items[0].href) then [items[0]] else []) + ActiveItems(pathname, items[1..])
  }

  /** The rendered sidebar never highlights two entries. */
  lemma NavigationHighlightsAtMostOne(pathname: string)
    ensures |ActiveItems(pathname, Navigation)| <= 1
  {
    forall i, j | 0 <= i < j < |Navigation| {
      AtMostOneActive(pathname, i, j);
    }
    var n := Navigation;
    var tail4 := ActiveItems(pathname, n[4..]);
    var tail3 := ActiveItems(pathname, n[3..]);
    var tail2 := ActiveItems(pathname, n[2..]);
    var tail1 := ActiveItems(pathname, n[1..]);
    assert n[4..][1..] == [];
    assert n[3..][1..] == n[4..];
    assert n[2..][1..] == n[3..];
    assert n[1..][1..] == n[2..];
  }
}
