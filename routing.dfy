/**
 * Route building of the REST client API (client_rest/routing.go): the full
 * path of a route under the configured prefix, and which routes a node
 * registers for its role.
 */
module Routing {
  // ---------------------------------------------------------------------------
  // Whitespace trimming
  // ---------------------------------------------------------------------------

  /** The ASCII white space characters that `strings.TrimSpace` removes. */
  predicate IsSpace(c: char) {
    c == ' ' || c == '\t' || c == '\n' || c == '\r' || c == '\U{0B}' || c == '\U{0C}'
  }

  /** Every character of s is white space. */
  predicate AllSpace(s: string) {
    forall i :: 0 <= i < |s| ==> IsSpace(s[i])
  }

  /**
   * [lo, hi) is the part of s that `strings.TrimSpace` keeps: only white
   * space comes before lo and from hi on, and a non-empty part starts and
   * ends with a character that is not white space.
   */
  predicate TrimBounds(s: string, lo: nat, hi: nat) {
    && lo <= hi <= |s|
    && (forall i :: 0 <= i < lo ==> IsSpace(s[i]))
    && (forall i :: hi <= i < |s| ==> IsSpace(s[i]))
    && (lo < hi ==> !IsSpace(s[lo]) && !IsSpace(s[hi - 1]))
  }

  /** The first position at or after `from` that does not hold white space, or |s|. */
  function SkipSpace(s: string, from: nat): (n: nat)
    requires from <= |s|
    ensures from <= n <= |s|
    ensures forall i :: from <= i < n ==> IsSpace(s[i])
    ensures n < |s| ==> !IsSpace(s[n])
    decreases |s| - from
  {
    if from < |s| && IsSpace(s[from]) then SkipSpace(s, from + 1) else from
  }

  /** The end of s[lo..end] once its trailing white space is cut off. */
  function SkipSpaceBack(s: string, lo: nat, end: nat): (n: nat)
    requires lo <= end <= |s|
    ensures lo <= n <= end
    ensures forall i :: n <= i < end ==> IsSpace(s[i])
    ensures n > lo ==> !IsSpace(s[n - 1])
    decreases end
  {
    if end > lo && IsSpace(s[end - 1]) then SkipSpaceBack(s, lo, end - 1) else end
  }

  /** Where `strings.TrimSpace` cuts s: the leading white space, then the trailing white space. */
  function Trimmed(s: string): (b: (nat, nat))
    ensures TrimBounds(s, b.0, b.1)
  {
    var lo := SkipSpace(s, 0);
    (lo, SkipSpaceBack(s, lo, |s|))
  }

  /**
   * `strings.TrimSpace` over ASCII white space: s without its leading and
   * trailing white space. Nothing is left exactly when s is all white space.
   */
  function TrimSpace(s: string): (r: string)
    ensures |r| <= |s|
    ensures |r| > 0 ==> !IsSpace(r[0]) && !IsSpace(r[|r| - 1])
    ensures r == [] <==> AllSpace(s)
  {
    var b := Trimmed(s);
    s[b.0..b.1]
  }

  /** The cut is unique: any bounds that keep only white space outside give the trimmed string. */
  lemma TrimBoundsUnique(s: string, lo: nat, hi: nat)
    requires TrimBounds(s, lo, hi)
    ensures TrimSpace(s) == s[lo..hi]
  {
    var b := Trimmed(s);
    if lo < hi {
      assert !IsSpace(s[lo]) && !IsSpace(s[hi - 1]);
      assert b.0 <= lo < b.1;
      assert !IsSpace(s[b.0]) && !IsSpace(s[b.1 - 1]);
      assert b.0 == lo && b.1 == hi;
    } else {
      assert AllSpace(s);
    }
  }

  /** A string that neither starts nor ends with white space is its own trim. */
  lemma TrimBare(s: string)
    requires |s| == 0 || (!IsSpace(s[0]) && !IsSpace(s[|s| - 1]))
    ensures TrimSpace(s) == s
  {
    TrimBoundsUnique(s, 0, |s|);
    assert s[0..|s|] == s;
  }

  /** Bounds that trim s still trim it once white space is put around it, shifted past the leading part. */
  lemma TrimBoundsAround(ws1: string, s: string, ws2: string, lo: nat, hi: nat)
    requires AllSpace(ws1) && AllSpace(ws2) && TrimBounds(s, lo, hi)
    ensures TrimBounds(ws1 + s + ws2, |ws1| + lo, |ws1| + hi)
  {
    var t := ws1 + s + ws2;
    var n := |ws1|;
    forall i | 0 <= i < n + lo
      ensures IsSpace(t[i])
    {
      if i < n {
        assert t[i] == ws1[i];
      } else {
        assert t[i] == s[i - n];
      }
    }
    forall i | n + hi <= i < |t|
      ensures IsSpace(t[i])
    {
      if i < n + |s| {
        assert t[i] == s[i - n];
      } else {
        assert t[i] == ws2[i - n - |s|];
      }
    }
    if lo < hi {
      assert t[n + lo] == s[lo] && t[n + hi - 1] == s[hi - 1];
    }
  }

  /** White space around a string does not change its trim. */
  lemma TrimSpaceAround(ws1: string, s: string, ws2: string)
    requires AllSpace(ws1) && AllSpace(ws2)
    ensures TrimSpace(ws1 + s + ws2) == TrimSpace(s)
  {
    var b := Trimmed(s);
    TrimBoundsAround(ws1, s, ws2, b.0, b.1);
    MiddleSlice(ws1, s, ws2, b.0, b.1);
    TrimShifted(ws1 + s + ws2, s, |ws1|, b.0, b.1);
  }

  /** Two strings whose trim bounds cut out the same characters have the same trim. */
  lemma TrimShifted(t: string, s: string, n: nat, lo: nat, hi: nat)
    requires TrimBounds(t, n + lo, n + hi) && TrimBounds(s, lo, hi)
    requires t[n + lo..n + hi] == s[lo..hi]
    ensures TrimSpace(t) == TrimSpace(s)
  {
    TrimBoundsUnique(t, n + lo, n + hi);
    TrimBoundsUnique(s, lo, hi);
  }

  /** Cutting the middle part back out of ws1 + s + ws2. */
  lemma MiddleSlice(ws1: string, s: string, ws2: string, lo: nat, hi: nat)
    requires lo <= hi <= |s|
    ensures (ws1 + s + ws2)[|ws1| + lo..|ws1| + hi] == s[lo..hi]
  {
    var t := ws1 + s + ws2;
    var u := t[|ws1| + lo..|ws1| + hi];
    assert |u| == hi - lo;
    forall i | 0 <= i < hi - lo
      ensures u[i] == s[lo + i]
    {
      assert u[i] == t[|ws1| + lo + i];
    }
  }

  // ---------------------------------------------------------------------------
  // Route paths
  // ---------------------------------------------------------------------------

  /** `strings.Join`: the elements with sep between consecutive ones. */
  function Join(elems: seq<string>, sep: string): (r: string)
    ensures |elems| == 0 ==> r == ""
    ensures |elems| == 1 ==> r == elems[0]
    ensures |elems| == 2 ==> r == elems[0] + sep + elems[1]
    ensures |elems| == 3 ==> r == elems[0] + sep + elems[1] + sep + elems[2]
  {
    if |elems| == 0 then ""
    else if |elems| == 1 then elems[0]
    else elems[0] + sep + Join(elems[1..], sep)
  }

  /**
   * Joining one more element appends sep and that element: Join read from
   * the right, as the separators sit between consecutive elements.
   */
  lemma {:induction false} JoinSnoc(elems: seq<string>, e: string, sep: string)
    requires |elems| > 0
    ensures Join(elems + [e], sep) == Join(elems, sep) + sep + e
    decreases |elems|
  {
    if |elems| > 1 {
      JoinSnoc(elems[1..], e, sep);
      assert (elems + [e])[1..] == elems[1..] + [e];
    } else {
      assert elems + [e] == [elems[0], e];
    }
  }

  /**
   * `supplementRoute`: the route, trimmed of white space, under the route
   * prefix. An empty route or "/" names the prefix itself.
   */
  function SupplementRoute(route: string, prefix: string): (r: string)
  {
    var trimmed := TrimSpace(route);
    if |trimmed| == 0 || trimmed == "/" then Join(["", prefix], "/")
    else Join(["", prefix, trimmed], "/")
  }

  /**
   * The full path is "/" followed by the prefix, and then, unless the
   * trimmed route is empty or "/", a "/" and the trimmed route.
   */
  lemma SupplementRouteShape(route: string, prefix: string)
    ensures var trimmed := TrimSpace(route);
      SupplementRoute(route, prefix) ==
        if |trimmed| == 0 || trimmed == "/" then "/" + prefix else "/" + prefix + "/" + trimmed
  {
    var trimmed := TrimSpace(route);
    assert Join(["", prefix], "/") == "" + "/" + Join([prefix], "/");
    assert ["", prefix, trimmed][1..] == [prefix, trimmed];
    assert [prefix, trimmed][1..] == [trimmed];
  }

  /** The route part of a full path can be read back: it is the trimmed route. */
  lemma SupplementRouteRecoversRoute(route: string, prefix: string)
    requires TrimSpace(route) != [] && TrimSpace(route) != "/"
    ensures SupplementRoute(route, prefix)[..|prefix| + 2] == "/" + prefix + "/"
    ensures SupplementRoute(route, prefix)[|prefix| + 2..] == TrimSpace(route)
  {
    SupplementRouteShape(route, prefix);
  }

  /** White space around a route never changes its full path. */
  lemma SupplementRouteIgnoresSpace(ws1: string, route: string, ws2: string, prefix: string)
    requires AllSpace(ws1) && AllSpace(ws2)
    ensures SupplementRoute(ws1 + route + ws2, prefix) == SupplementRoute(route, prefix)
  {
    TrimSpaceAround(ws1, route, ws2);
  }

  /** A route with no white space around it, other than "/", goes under the prefix as it is. */
  lemma SupplementBareRoute(route: string, prefix: string)
    requires |route| > 0 && !IsSpace(route[0]) && !IsSpace(route[|route| - 1]) && route != "/"
    ensures SupplementRoute(route, prefix) == "/" + prefix + "/" + route
  {
    TrimBare(route);
    SupplementRouteShape(route, prefix);
  }

  /** The table test of `supplementRoute`, for every prefix: an empty route and "/". */
  lemma SupplementRouteExamplesEmpty(prefix: string)
    ensures SupplementRoute("", prefix) == "/" + prefix
    ensures SupplementRoute("/", prefix) == "/" + prefix
  {
    SupplementRouteShape("", prefix);
    SupplementRouteShape("/", prefix);
    TrimBare("/");
    TrimBare("");
  }

  /** The table test of `supplementRoute`, for every prefix: routes of white space only. */
  lemma SupplementRouteExamplesSpace(prefix: string)
    ensures SupplementRoute("    ", prefix) == "/" + prefix
    ensures SupplementRoute(" \r\n \n", prefix) == "/" + prefix
  {
    SupplementRouteShape("", prefix);
    assert "    " + "" + "" == "    ";
    SupplementRouteIgnoresSpace("    ", "", "", prefix);
    assert " \r\n \n" + "" + "" == " \r\n \n";
    SupplementRouteIgnoresSpace(" \r\n \n", "", "", prefix);
  }

  /** The white space and literals of the key examples, spelled out. */
  lemma KeyLiterals()
    ensures AllSpace(" ") && AllSpace("\r\n") && AllSpace("")
    ensures " " + "key" + " " == " key " && "" + "key" + "\r\n" == "key\r\n"
  {
  }

  /** The table test of `supplementRoute`, for every prefix: "key" with white space around it. */
  lemma SupplementRouteExamplesKey(prefix: string)
    ensures SupplementRoute(" key ", prefix) == "/" + prefix + "/" + "key"
    ensures SupplementRoute("key\r\n", prefix) == "/" + prefix + "/" + "key"
  {
    SupplementBareRoute("key", prefix);
    KeyLiterals();
    SupplementRouteIgnoresSpace(" ", "key", " ", prefix);
    SupplementRouteIgnoresSpace("", "key", "\r\n", prefix);
  }

  /** The table test of `supplementRoute`, for every prefix: a route of two segments. */
  lemma SupplementRouteExampleTwoSegments(prefix: string)
    ensures SupplementRoute("key/op", prefix) == "/" + prefix + "/" + "key/op"
  {
    SupplementBareRoute("key/op", prefix);
  }

  // ---------------------------------------------------------------------------
  // Route registration
  // ---------------------------------------------------------------------------

  /** `Route`: a named handler for a method and a path pattern. */
  datatype Route = Route(name: string, httpMethod: string, pattern: string)

  /** The client API's routes, in registration order. */
  const ROUTES: seq<Route> := [
    Route("GetItem", "GET", "item"),
    Route("SetItem", "POST", "item"),
    Route("RemoveItem", "DELETE", "item"),
    Route("GetKeys", "GET", "keys")
  ]

  /** What the router records for a route: its method, full path and name. */
  datatype Registration = Registration(httpMethod: string, path: string, name: string)

  /** A slave node does not serve the routes that change data. */
  predicate Skipped(role: string, route: Route) {
    role == "slave" && (route.name == "SetItem" || route.name == "RemoveItem")
  }

  /** The routes a node of the given role keeps, in order. */
  function Kept(routes: seq<Route>, role: string): (r: seq<Route>)
    ensures |r| <= |routes|
    ensures forall rt :: rt in r <==> rt in routes && !Skipped(role, rt)
  {
    if |routes| == 0 then []
    else
      assert forall rt :: rt in routes <==> rt == routes[0] || rt in routes[1..];
      (if Skipped(role, routes[0]) then [] else [routes[0]]) + Kept(routes[1..], role)
  }

  /**
   * `NewRouter`'s loop: each route in turn, unless the role skips it, is
   * registered with its method, its full path under the prefix and its
   * name; so the registrations are the kept routes, one each, in order.
   */
  function Register(routes: seq<Route>, role: string, prefix: string): (r: seq<Registration>)
    ensures |r| == |Kept(routes, role)|
    ensures forall i :: 0 <= i < |r| ==> r[i].httpMethod == Kept(routes, role)[i].httpMethod && r[i].name == Kept(routes, role)[i].name
    ensures forall i :: 0 <= i < |r| ==> r[i].path == SupplementRoute(Kept(routes, role)[i].pattern, prefix)
  {
    var kept := Kept(routes, role);
    seq(|kept|, i requires 0 <= i < |kept| => Registration(kept[i].httpMethod, SupplementRoute(kept[i].pattern, prefix), kept[i].name))
  }

  /** A slave keeps only GetItem and GetKeys, in that order. */
  lemma SlaveRoutes()
    ensures Kept(ROUTES, "slave") == [ROUTES[0], ROUTES[3]]
  {
    assert ROUTES[3..][1..] == [];
    assert Kept(ROUTES[3..], "slave") == [ROUTES[3]];
    assert ROUTES[2..][1..] == ROUTES[3..];
    assert Kept(ROUTES[2..], "slave") == [ROUTES[3]];
    assert ROUTES[1..][1..] == ROUTES[2..];
    assert Kept(ROUTES[1..], "slave") == [ROUTES[3]];
  }

  /** A role that skips none of the routes keeps them all, in order. */
  lemma {:induction false} KeptAll(routes: seq<Route>, role: string)
    requires forall i :: 0 <= i < |routes| ==> !Skipped(role, routes[i])
    ensures Kept(routes, role) == routes
    decreases |routes|
  {
    if |routes| > 0 {
      KeptAll(routes[1..], role);
      assert [routes[0]] + routes[1..] == routes;
    }
  }

  /** Every role other than slave keeps all four routes, in order. */
  lemma OtherRoleRoutes(role: string)
    requires role != "slave"
    ensures Kept(ROUTES, role) == ROUTES
  {
    KeptAll(ROUTES, role);
  }
}
