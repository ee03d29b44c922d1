/** The back button of the secondary header: the route comes from the
    component's `back` prop, else from the `back` query parameter; a set
    route is pushed with a leading '/', an unset or empty one goes back in
    the history. */
module BackNavigation {
  import opened Wrappers
  import opened Strings

  datatype Nav = Push(target: string) | GoBack

  /** `backProp ?? backParam`, with `None` standing for null or undefined. */
  function BackRoute(prop: Option<string>, param: Option<string>): (r: Option<string>)
    ensures prop.Some? ==> r == prop
    ensures prop.None? ==> r == param
    ensures r.None? <==> prop.None? && param.None?
  {
    if prop.Some? then prop else param
  }

  /** The pushed path: the route itself when it already starts with '/',
      otherwise the route behind a single '/'. */
  function Target(route: string): (t: string)
    ensures StartsWith(t, "/")
    ensures t == route || t == "/" + route
    ensures t == route <==> StartsWith(route, "/")
  {
    if StartsWith(route, "/") then route else "/" + route
  }

  /** A pushed path is pushed unchanged when used as a route again. */
  lemma TargetIdempotent(route: string)
    ensures Target(Target(route)) == Target(route)
  {
  }

  /** What pressing back does. */
  function HandleBack(prop: Option<string>, param: Option<string>): (n: Nav)
    ensures n.GoBack? <==> BackRoute(prop, param).None? || BackRoute(prop, param) == Some("")
    ensures n.Push? ==> StartsWith(n.target, "/")
  {
    match BackRoute(prop, param)
    case None => GoBack
    case Some(route) => if route == [] then GoBack else Push(Target(route))
  }

  /** An empty prop is not null, so it shadows the query parameter, and being
      falsy it sends the user back in the history. */
  lemma EmptyPropShadowsParam(param: Option<string>)
    ensures BackRoute(Some(""), param) == Some("")
    ensures HandleBack(Some(""), param) == GoBack
  {
  }

  /** A set prop decides alone; the parameter only counts without one. */
  lemma PropWins(prop: string, param: Option<string>)
    requires prop != []
    ensures HandleBack(Some(prop), param) == Push(Target(prop))
    ensures HandleBack(None, Some(prop)) == Push(Target(prop))
  {
  }

  /** Pressing back again with the target just pushed pushes the same
      target. */
  lemma HandleBackStable(prop: Option<string>, param: Option<string>)
    requires HandleBack(prop, param).Push?
    ensures HandleBack(Some(HandleBack(prop, param).target), param) == HandleBack(prop, param)
  {
    var route := BackRoute(prop, param).value;
    TargetIdempotent(route);
  }
}
