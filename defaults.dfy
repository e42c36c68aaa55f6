/** Routes declared with a hash (`match ":controller", default: {action: "index"}`):
    the template gains a final `:action` part, and before the match the path
    loses one trailing slash and gains `"/" + action`. */
module DefaultRoutes {
  import opened Text
  import opened Routes
  import opened Matching

  /** Shorthand for `Compile(template, DefaultTo(controller, action))`, the
      route that `match(template, default: {action: action})` appends; the
      hash's own controller entry is never read. */
  function DefaultRoute(template: string, controller: string, action: string): Route
  {
    Compile(template, DefaultTo(controller, action))
  }

  /** A path made of one matching piece per part of the template, with or
      without a trailing slash, has the default action appended: the match
      captures the pieces at the template's capture groups and then the
      action. An empty path counts as the template `/` with no parts. */
  lemma DefaultActionApplied(template: string, controller: string, action: string, pieces: seq<string>, path: string)
    requires IsWord(action)
    requires |pieces| == |UrlParts(template)|
    requires forall j :: 0 <= j < |pieces| ==> SegmentMatches(CompileParts(UrlParts(template))[j], pieces[j])
    requires path == Instance(pieces) || (pieces != [] && path == Instance(pieces) + "/") || (pieces == [] && path == "")
    ensures var r := DefaultRoute(template, controller, action);
      MatchPath(r.pattern, Rewrite(r, path)) == Some(Captures(CompileParts(UrlParts(template)), pieces) + [action])
  {
    var p := CompileParts(UrlParts(template));
    DefaultRewrite(template, controller, action, path);
    TemplateOk(template);
    ActionCaptured(p, pieces, action, path);
  }

  /** The default route's regexp and the path it is tried on. */
  lemma DefaultRewrite(template: string, controller: string, action: string, path: string)
    ensures var r := DefaultRoute(template, controller, action);
      r.pattern == CompileParts(UrlParts(template)) + [Capture] &&
      Rewrite(r, path) == Chomp(path) + "/" + action
  {
    DefaultRouteShape(template, controller, action);
  }

  /** The literal parts of a template are non-empty and slash-free. */
  lemma TemplateOk(template: string)
    ensures PatternOk(CompileParts(UrlParts(template)))
  {
    var parts := UrlParts(template);
    var p := CompileParts(parts);
    assert forall j :: 0 <= j < |p| && p[j].Literal? ==> p[j].text == parts[j];
  }

  /** The same for any pattern extended by a final capture group. */
  lemma ActionCaptured(p: Pattern, pieces: seq<string>, action: string, path: string)
    requires PatternOk(p) && IsWord(action) && |pieces| == |p|
    requires forall j :: 0 <= j < |pieces| ==> SegmentMatches(p[j], pieces[j])
    requires path == Instance(pieces) || (pieces != [] && path == Instance(pieces) + "/") || (pieces == [] && path == "")
    ensures MatchPath(p + [Capture], Chomp(path) + "/" + action) == Some(Captures(p, pieces) + [action])
  {
    var q := p + [Capture];
    ChompInstance(p, pieces, path);
    var full := pieces + [action];
    InstanceAppend(pieces, action);
    forall j | 0 <= j < |full|
      ensures SegmentMatches(q[j], full[j])
    {
      if j < |pieces| {
        assert q[j] == p[j] && full[j] == pieces[j];
      }
    }
    assert PatternOk(q) by {
      assert forall j :: 0 <= j < |p| ==> q[j] == p[j];
    }
    MatchPathComplete(q, full);
    CapturesAppend(p, pieces, [Capture], [action]);
    assert Captures([Capture], [action]) == [action] by {
      assert [Capture][..0] == [] && [action][..0] == [];
    }
  }

  /** Chomping the path leaves `Instance(pieces)` without its final slash. */
  lemma ChompInstance(p: Pattern, pieces: seq<string>, path: string)
    requires PatternOk(p) && |pieces| == |p|
    requires forall j :: 0 <= j < |pieces| ==> SegmentMatches(p[j], pieces[j])
    requires path == Instance(pieces) || (pieces != [] && path == Instance(pieces) + "/") || (pieces == [] && path == "")
    ensures Chomp(path) == if pieces == [] then "" else Instance(pieces)
  {
    if pieces != [] {
      MatchingPiecesShape(p, pieces);
      JoinShape(pieces);
      var i := Instance(pieces);
      assert i[|i| - 1] == JoinSlash(pieces)[|JoinSlash(pieces)| - 1];
      if path == i + "/" {
        assert path[..|path| - 1] == i;
      }
    }
  }

  /** The slash and the action after `Instance(pieces)`, or after nothing. */
  lemma InstanceAppend(pieces: seq<string>, action: string)
    ensures (if pieces == [] then "" else Instance(pieces)) + "/" + action == Instance(pieces + [action])
  {
    if pieces == [] {
      assert pieces + [action] == [action];
    } else {
      JoinSlashAppend(pieces, action);
    }
  }

  /** A default route's hash maps `"action"` to the capture of the final
      group, even when the template has an `:action` part of its own. */
  lemma DefaultActionBound(names: seq<string>, caps: seq<string>, action: string)
    requires |caps| == |names|
    ensures var h := Bind(names + ["action"], caps + [action]);
      "action" in h && h["action"] == action
  {
    BindLast(names + ["action"], caps + [action], |names|);
  }

  /** Appending a slash and a non-empty, slash-free suffix to a path that a
      regexp matches gives a path that it does not match. */
  lemma RewriteBreaksMatch(q: Pattern, path: string, action: string)
    requires PatternOk(q) && MatchPath(q, path).Some?
    requires action != "" && '/' !in action
    ensures MatchPath(q, Chomp(path) + "/" + action).None?
  {
    var rewritten := Chomp(path) + "/" + action;
    MatchPathAnchored(q, path);
    if q == [] {
      assert |rewritten| > 1;
    } else {
      assert Chomp(path) == path;
      assert multiset(action)['/'] == 0;
      assert multiset(rewritten) == multiset(path) + multiset{'/'} + multiset(action);
      if MatchPath(q, rewritten).Some? {
        MatchPathAnchored(q, rewritten);
        assert false;
      }
    }
  }

  /** A path that already names an action (one more segment than the
      template) never matches the default route: the appended default adds
      a segment too many. */
  lemma ExplicitActionRejected(template: string, controller: string, action: string, path: string)
    requires IsWord(action)
    requires MatchPath(DefaultRoute(template, controller, action).pattern, path).Some?
    ensures var r := DefaultRoute(template, controller, action);
      MatchPath(r.pattern, Rewrite(r, path)).None?
  {
    var r := DefaultRoute(template, controller, action);
    DefaultRewrite(template, controller, action, path);
    assert action[0] in action && !IsWordChar('/');
    RewriteBreaksMatch(r.pattern, path, action);
  }

  /** The rewrite carries over: when a default route that does not match
      stands before a route without a default, that route is tried on the
      rewritten path, so a path it matches on its own finds no route. */
  lemma RewriteCarriesOver(d: Route, q: Route, action: string, url: string)
    requires WellFormed(d) && WellFormed(q)
    requires d.default == Some("/" + action) && IsWord(action) && q.default.None?
    requires MatchPath(d.pattern, Rewrite(d, url)).None?
    requires MatchPath(q.pattern, url).Some?
    ensures !Lookup([q], url).NoMatch?
    ensures Lookup([d, q], url) == NoMatch
  {
    var routes := [d, q];
    assert RewrittenPath(routes, url, 1) == Chomp(url) + "/" + action;
    assert RewrittenPath(routes, url, 2) == Chomp(url) + "/" + action;
    assert action[0] in action && !IsWordChar('/');
    RewriteBreaksMatch(q.pattern, url, action);
    assert AllWellFormed(routes);
    LookupNoMatch(routes, url);
    SingleRouteLookup(q, url);
  }

  /** `check_url` on a table holding only a default route: a path made of
      matching pieces dispatches to the `:controller` placeholder's value (or
      `""`) and the default action, and is unresolved when the template has
      no `:controller` part, whatever controller the hash names. */
  lemma DefaultRouteLookup(template: string, controller: string, action: string, pieces: seq<string>, path: string)
    requires IsWord(action)
    requires |pieces| == |UrlParts(template)|
    requires forall j :: 0 <= j < |pieces| ==> SegmentMatches(CompileParts(UrlParts(template))[j], pieces[j])
    requires path == Instance(pieces) || (pieces != [] && path == Instance(pieces) + "/") || (pieces == [] && path == "")
    ensures var parts := UrlParts(template);
      var caps := Captures(CompileParts(parts), pieces);
      var names := PlaceholderNames(parts);
      |names| == |caps| &&
      Lookup([DefaultRoute(template, controller, action)], path) ==
        if "controller" in names then
          Dispatched(TargetName(Get(Bind(names + ["action"], caps + [action]), "controller"), action))
        else Unresolved
  {
    var r := DefaultRoute(template, controller, action);
    var parts := UrlParts(template);
    var caps := Captures(CompileParts(parts), pieces);
    PlaceholderCount(parts);
    DefaultActionApplied(template, controller, action, pieces, path);
    SingleRouteLookup(r, path);
    DefaultRouteShape(template, controller, action);
    DefaultResolution(r, PlaceholderNames(parts), caps, action);
  }


  /** With one route, `check_url` resolves that route's match or reports no
      match. */
  lemma SingleRouteLookup(r: Route, path: string)
    requires WellFormed(r)
    ensures MatchPath(r.pattern, Rewrite(r, path)).Some? ==>
      Lookup([r], path) == Resolve(r, MatchPath(r.pattern, Rewrite(r, path)).value)
  {
    assert RewrittenPath([r], path, 1) == Rewrite(r, path);
    if MatchPath(r.pattern, Rewrite(r, path)).Some? {
      LookupFirstMatch([r], path, 0);
    }
  }

  /** A route shaped like a default route, matched with word captures,
      resolves to the `:controller` capture and the default action, or is
      unresolved without a `:controller` part. */
  lemma DefaultResolution(r: Route, names: seq<string>, caps: seq<string>, action: string)
    requires r.target.None? && r.placeholders == names + ["action"]
    requires IsWord(action) && AllWords(caps) && |caps| == |names|
    ensures Resolve(r, caps + [action]) ==
      if "controller" in names then
        Dispatched(TargetName(Get(Bind(names + ["action"], caps + [action]), "controller"), action))
      else Unresolved
  {
    var all := caps + [action];
    DefaultActionBound(names, caps, action);
    assert AllWords(all) by {
      assert forall j :: 0 <= j < |caps| ==> all[j] == caps[j];
    }
    assert "controller" in r.placeholders <==> "controller" in names;
    DynamicTargetResolution(r, all);
  }
}
