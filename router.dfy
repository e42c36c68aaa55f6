/** `Simplemvc::Router`: the route table and the two public operations on it,
    `match` (register a route) and `check_url` (find the route for a path),
    with the private helpers that loop. Each method is proved to compute the
    function of the same step in `Routes` or `Matching`. */
module Simplemvc {
  import opened Text
  import opened Routes
  import opened Matching

  class Router {
    /** `@routes`, in registration order. */
    var routes: seq<Route>

    /** Every registered route is as `match` builds it. */
    ghost predicate Valid()
      reads this
    {
      AllWellFormed(routes)
    }

    /** `initialize`: an empty route table. */
    constructor()
      ensures Valid() && routes == []
    {
      routes := [];
    }

    /** `match(url, *args)`: compile the template and append the route. */
    method Match(url: string, decl: Declaration)
      requires Valid()
      modifies this
      ensures Valid()
      ensures routes == old(routes) + [Compile(url, decl)]
    {
      var declared := DetermineTargetAndDefault(decl, url);
      var parts := GetUrlParts(declared.template);
      var placeholders, regexp := GetRegexp(parts);
      var route := Route(regexp, declared.target, placeholders, declared.default);
      assert route == Compile(url, decl);
      assert AllWellFormed([route]) by {
        assert [route][0] == route;
      }
      AllWellFormedAppend(routes, [route]);
      routes := routes + [route];
    }

    /** `check_url(url)`: walk the routes in order, letting each default route
        rewrite the path for itself and every later route, and return the
        result of the first route whose regexp matches. */
    method CheckUrl(url: string) returns (r: LookupResult)
      requires Valid()
      ensures r == Lookup(routes, url)
    {
      var path := url;
      var i := 0;
      while i < |routes|
        invariant 0 <= i <= |routes|
        invariant path == RewrittenPath(routes, url, i)
        invariant forall j :: 0 <= j < i ==> MatchAt(routes, url, j).None?
      {
        var route := routes[i];
        if route.default.Some? {
          path := Chomp(path);
          path := path + route.default.value;
        }
        var m := MatchPath(route.pattern, path);
        if m.Some? {
          assert WellFormed(route);
          var placeholders := RetrievePlaceholders(route, m.value);
          var target := route.target;
          var name := if target.None? then RetrieveTarget(placeholders) else target.value;
          r := ConvertTarget(name);
          LookupFirstMatch(routes, url, i);
          return;
        }
        i := i + 1;
      }
      LookupNoMatch(routes, url);
      r := NoMatch;
    }

    /** `get_url_parts(url)`: split at the slashes and drop the empty pieces
        in place (`select!`). */
    method GetUrlParts(url: string) returns (parts: seq<string>)
      ensures parts == UrlParts(url)
    {
      var pieces := RubySplit(url);
      parts := [];
      var i := 0;
      while i < |pieces|
        invariant 0 <= i <= |pieces|
        invariant parts == NonEmpty(pieces[..i])
      {
        assert pieces[..i + 1][..i] == pieces[..i];
        if pieces[i] != "" {
          parts := parts + [pieces[i]];
        }
        i := i + 1;
      }
      assert pieces[..i] == pieces;
    }

    /** `get_regexp(url_parts)`: map each part to its segment, pushing the
        name of every `:` part onto the placeholder list as it goes. */
    method GetRegexp(parts: seq<string>) returns (placeholders: seq<string>, regexp: Pattern)
      ensures placeholders == PlaceholderNames(parts)
      ensures regexp == CompileParts(parts)
    {
      placeholders := [];
      regexp := [];
      var i := 0;
      while i < |parts|
        invariant 0 <= i <= |parts|
        invariant placeholders == PlaceholderNames(parts[..i])
        invariant regexp == CompileParts(parts[..i])
      {
        var part := parts[i];
        assert parts[..i + 1][..i] == parts[..i];
        if |part| > 0 && part[0] == ':' {
          placeholders := placeholders + [part[1..]];
          regexp := regexp + [Capture];
        } else {
          regexp := regexp + [Literal(part)];
        }
        i := i + 1;
      }
      assert parts[..i] == parts;
    }

    /** `retrieve_placeholders(route, match)`: the hash from each placeholder
        name to the capture at the same index. */
    method RetrievePlaceholders(route: Route, captures: seq<string>) returns (h: map<string, string>)
      requires |captures| == |route.placeholders|
      ensures h == Bind(route.placeholders, captures)
    {
      var names := route.placeholders;
      h := map[];
      var i := 0;
      while i < |names|
        invariant 0 <= i <= |names|
        invariant h == Bind(names[..i], captures[..i])
      {
        assert names[..i + 1][..i] == names[..i];
        assert captures[..i + 1][..i] == captures[..i];
        h := h[names[i] := captures[i]];
        i := i + 1;
      }
      assert names[..i] == names && captures[..i] == captures;
    }
  }
}
