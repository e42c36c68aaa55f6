/** Route lookup as functions: what a compiled regexp matches, the placeholder
    hash built from its captures (`retrieve_placeholders`), the target string
    (`retrieve_target`), its parse (`convert_target`), and the first-match scan
    of `check_url`. `Simplemvc.Router.CheckUrl` is proved to compute `Lookup`. */
module Matching {
  import opened Text
  import opened Routes

  // ---------------------------------------------------------------------
  // The compiled regexp `^/s1/.../sn$`

  /** A path piece matches a segment: a literal exactly, a capture group
      `([A-Za-z0-9_]+)` when the piece is a non-empty word. */
  predicate SegmentMatches(seg: Segment, piece: string)
  {
    match seg
    case Literal(text) => piece == text
    case Capture => IsWord(piece)
  }

  /** Every piece matches the segment at its position. */
  predicate PiecesMatch(pattern: Pattern, pieces: seq<string>)
    requires |pieces| == |pattern|
  {
    if pattern == [] then true
    else
      var n := |pattern| - 1;
      PiecesMatch(pattern[..n], pieces[..n]) && SegmentMatches(pattern[n], pieces[n])
  }

  lemma {:induction false} PiecesMatchAll(pattern: Pattern, pieces: seq<string>)
    requires |pieces| == |pattern|
    ensures PiecesMatch(pattern, pieces) <==>
      forall i :: 0 <= i < |pattern| ==> SegmentMatches(pattern[i], pieces[i])
  {
    if pattern != [] {
      var n := |pattern| - 1;
      PiecesMatchAll(pattern[..n], pieces[..n]);
      assert forall i :: 0 <= i < n ==> pattern[..n][i] == pattern[i] && pieces[..n][i] == pieces[i];
    }
  }

  /** The pieces standing at the capture groups, left to right. */
  function Captures(pattern: Pattern, pieces: seq<string>): (caps: seq<string>)
    requires |pieces| == |pattern|
    ensures |caps| == CaptureCount(pattern)
    ensures PiecesMatch(pattern, pieces) ==> AllWords(caps)
  {
    if pattern == [] then []
    else
      var n := |pattern| - 1;
      Captures(pattern[..n], pieces[..n]) + (if pattern[n].Capture? then [pieces[n]] else [])
  }

  /** The path `"/" + pieces.join("/")`. */
  function Instance(pieces: seq<string>): string
  {
    "/" + JoinSlash(pieces)
  }

  /** `Regexp.new("^/#{regexp}$").match(path)`, as its captures. Literal parts
      contain no slash and a capture group matches no slash, so with segments
      the regexp matches exactly when the path splits at its slashes into an
      empty piece (before the leading slash) and then one matching piece per
      segment; with no segments, `^/$` matches only `"/"`. */
  function MatchPath(pattern: Pattern, path: string): (m: Option<seq<string>>)
    ensures m.Some? ==> |m.value| == CaptureCount(pattern) && AllWords(m.value)
  {
    if pattern == [] then
      if path == "/" then Some([]) else None
    else
      var pieces := Split(path);
      if |pieces| == |pattern| + 1 && pieces[0] == "" && PiecesMatch(pattern, pieces[1..])
      then Some(Captures(pattern, pieces[1..]))
      else None
  }

  /** A path matched by a non-empty pattern starts with a slash, and its
      pieces after that slash are those of the split. */
  lemma MatchPathPieces(pattern: Pattern, path: string)
    requires pattern != [] && MatchPath(pattern, path).Some?
    ensures |path| > 0 && path[0] == '/' && Split(path)[1..] == Split(path[1..])
  {
    if path != [] {
      SplitCons(path[0], path[1..]);
      assert path == [path[0]] + path[1..];
    }
  }

  lemma {:induction false} CapturesAppend(p1: Pattern, s1: seq<string>, p2: Pattern, s2: seq<string>)
    requires |s1| == |p1| && |s2| == |p2|
    ensures Captures(p1 + p2, s1 + s2) == Captures(p1, s1) + Captures(p2, s2)
  {
    if p2 == [] {
      assert p1 + p2 == p1 && s1 + s2 == s1;
    } else {
      var n := |p2| - 1;
      var p, s := p1 + p2, s1 + s2;
      var last := if p2[n].Capture? then [s2[n]] else [];
      assert p[..|p1| + n] == p1 + p2[..n] && s[..|s1| + n] == s1 + s2[..n];
      assert p[|p1| + n] == p2[n] && s[|s1| + n] == s2[n];
      assert Captures(p, s) == Captures(p1 + p2[..n], s1 + s2[..n]) + last;
      CapturesAppend(p1, s1, p2[..n], s2[..n]);
      assert Captures(p2, s2) == Captures(p2[..n], s2[..n]) + last;
    }
  }

  /** The piece at capture group k is the k-th capture, where k counts the
      capture groups to its left. */
  lemma CapturesOrder(pattern: Pattern, pieces: seq<string>, i: nat)
    requires |pieces| == |pattern| && i < |pattern| && pattern[i].Capture?
    ensures var k := CaptureCount(pattern[..i]);
      k < |Captures(pattern, pieces)| && Captures(pattern, pieces)[k] == pieces[i]
  {
    var pre, rest := pattern[..i], pattern[i + 1..];
    var spre, srest := pieces[..i], pieces[i + 1..];
    assert pattern == pre + [pattern[i]] + rest;
    assert pieces == spre + [pieces[i]] + srest;
    CapturesAppend(pre + [pattern[i]], spre + [pieces[i]], rest, srest);
    CapturesAppend(pre, spre, [pattern[i]], [pieces[i]]);
    assert Captures([pattern[i]], [pieces[i]]) == [pieces[i]] by {
      assert [pattern[i]][..0] == [] && [pieces[i]][..0] == [];
    }
    var caps := Captures(pre, spre) + [pieces[i]];
    assert caps[|Captures(pre, spre)|] == pieces[i];
  }

  /** Pieces that match the segments of a well-formed pattern are non-empty
      and slash-free. */
  lemma MatchingPiecesShape(pattern: Pattern, pieces: seq<string>)
    requires PatternOk(pattern) && |pieces| == |pattern|
    requires forall i :: 0 <= i < |pattern| ==> SegmentMatches(pattern[i], pieces[i])
    ensures AllNonEmpty(pieces) && SlashFree(pieces)
  {
    forall i | 0 <= i < |pieces|
      ensures pieces[i] != "" && '/' !in pieces[i]
    {
      if pattern[i].Capture? {
        assert IsWord(pieces[i]);
        assert pieces[i][0] in pieces[i];
        assert !IsWordChar('/');
      }
    }
  }

  /** Completeness: a path made of one matching piece per segment matches,
      capturing exactly the pieces at the capture groups. */
  lemma MatchPathComplete(pattern: Pattern, pieces: seq<string>)
    requires PatternOk(pattern)
    requires |pieces| == |pattern|
    requires forall i :: 0 <= i < |pattern| ==> SegmentMatches(pattern[i], pieces[i])
    ensures MatchPath(pattern, Instance(pieces)) == Some(Captures(pattern, pieces))
  {
    if pattern != [] {
      MatchingPiecesShape(pattern, pieces);
      SplitJoin(pieces);
      PiecesMatchAll(pattern, pieces);
      assert Instance(pieces) == ['/'] + JoinSlash(pieces);
      SplitCons('/', JoinSlash(pieces));
    }
  }

  /** Soundness: a path that matches is made of one matching piece per
      segment, and the captures are the pieces at the capture groups. */
  lemma MatchPathSound(pattern: Pattern, path: string)
    requires MatchPath(pattern, path).Some?
    ensures exists pieces: seq<string> ::
      |pieces| == |pattern| &&
      (forall i :: 0 <= i < |pattern| ==> SegmentMatches(pattern[i], pieces[i])) &&
      path == Instance(pieces) &&
      MatchPath(pattern, path).value == Captures(pattern, pieces)
  {
    if pattern == [] {
      assert path == Instance([]);
    } else {
      var pieces := Split(path)[1..];
      PiecesMatchAll(pattern, pieces);
      MatchPathPieces(pattern, path);
      assert MatchPath(pattern, path).value == Captures(pattern, pieces);
      JoinSplit(path[1..]);
      assert path == "/" + path[1..];
      assert path == Instance(pieces);
    }
  }

  /** The pieces of a matching path are non-empty: a literal is non-empty and
      a capture group needs at least one character. */
  lemma MatchedPiecesNonEmpty(pattern: Pattern, path: string)
    requires PatternOk(pattern) && pattern != [] && MatchPath(pattern, path).Some?
    ensures |path| > 0 && path[0] == '/'
    ensures var pieces := Split(path[1..]);
      |pieces| == |pattern| && AllNonEmpty(pieces) && path == Instance(pieces)
  {
    MatchPathPieces(pattern, path);
    var pieces := Split(path[1..]);
    PiecesMatchAll(pattern, pieces);
    forall i | 0 <= i < |pieces|
      ensures pieces[i] != ""
    {
      assert SegmentMatches(pattern[i], pieces[i]);
    }
    JoinSplit(path[1..]);
    assert path == "/" + path[1..];
  }

  /** Whole-path anchoring: a path that matches has exactly one slash per
      segment (one for the pattern `^/$`), so a missing or extra segment never
      matches; it has no empty segment (no `//`) and no trailing slash unless
      it is `"/"`, and the same path with a slash appended does not match. */
  lemma MatchPathAnchored(pattern: Pattern, path: string)
    requires PatternOk(pattern) && MatchPath(pattern, path).Some?
    ensures multiset(path)['/'] == if pattern == [] then 1 else |pattern|
    ensures NoDoubleSlash(path)
    ensures pattern != [] ==> path[|path| - 1] != '/'
    ensures MatchPath(pattern, path + "/").None?
  {
    if pattern == [] {
      assert path == "/";
      assert path + "/" != "/";
    } else {
      MatchedPiecesNonEmpty(pattern, path);
      MatchedPathShape(pattern, path);
      MatchedPathExtended(pattern, path);
    }
  }

  lemma MatchedPathShape(pattern: Pattern, path: string)
    requires PatternOk(pattern) && pattern != [] && MatchPath(pattern, path).Some?
    ensures multiset(path)['/'] == |pattern| && NoDoubleSlash(path) && path[|path| - 1] != '/'
  {
    MatchedPiecesNonEmpty(pattern, path);
    var pieces := Split(path[1..]);
    var j := JoinSlash(pieces);
    JoinShape(pieces);
    assert path == "/" + j;
    assert multiset(path) == multiset{'/'} + multiset(j);
    forall k | 0 <= k < |path| - 1 && path[k] == '/'
      ensures path[k + 1] != '/'
    {
      if k > 0 {
        assert path[k] == j[k - 1] && path[k + 1] == j[k];
      }
    }
  }

  lemma MatchedPathExtended(pattern: Pattern, path: string)
    requires PatternOk(pattern) && pattern != [] && MatchPath(pattern, path).Some?
    ensures MatchPath(pattern, path + "/").None?
  {
    MatchPathPieces(pattern, path);
    var ext := path + "/";
    assert ext == [ext[0]] + (path[1..] + "/" + "");
    SplitCons(ext[0], path[1..] + "/" + "");
    SplitAppend(path[1..], "");
  }

  // ---------------------------------------------------------------------
  // retrieve_placeholders

  /** The hash `{names[i] => caps[i]}` filled left to right, so that a later
      duplicate name overwrites an earlier one. */
  function Bind(names: seq<string>, caps: seq<string>): map<string, string>
    requires |names| == |caps|
  {
    if names == [] then map[]
    else
      var n := |names| - 1;
      Bind(names[..n], caps[..n])[names[n] := caps[n]]
  }

  /** The keys of the hash are exactly the placeholder names. */
  lemma {:induction false} BindKeys(names: seq<string>, caps: seq<string>)
    requires |names| == |caps|
    ensures Bind(names, caps).Keys == set i | 0 <= i < |names| :: names[i]
  {
    if names != [] {
      var n := |names| - 1;
      BindKeys(names[..n], caps[..n]);
      assert (set i | 0 <= i < |names| :: names[i]) ==
             (set i | 0 <= i < n :: names[..n][i]) + {names[n]};
    }
  }

  /** A name maps to the capture at its last occurrence. */
  lemma {:induction false} BindLast(names: seq<string>, caps: seq<string>, i: nat)
    requires |names| == |caps| && i < |names|
    requires forall j :: i < j < |names| ==> names[j] != names[i]
    ensures names[i] in Bind(names, caps) && Bind(names, caps)[names[i]] == caps[i]
  {
    var n := |names| - 1;
    if i < n {
      BindLast(names[..n], caps[..n], i);
    }
  }

  /** Every value of the hash is one of the captures. */
  lemma {:induction false} BindValues(names: seq<string>, caps: seq<string>)
    requires |names| == |caps|
    ensures forall k :: k in Bind(names, caps) ==> exists i :: 0 <= i < |caps| && Bind(names, caps)[k] == caps[i]
  {
    if names != [] {
      var n := |names| - 1;
      BindValues(names[..n], caps[..n]);
      forall k | k in Bind(names, caps)
        ensures exists i :: 0 <= i < |caps| && Bind(names, caps)[k] == caps[i]
      {
        if k == names[n] {
          assert Bind(names, caps)[k] == caps[n];
        } else {
          var i :| 0 <= i < n && Bind(names[..n], caps[..n])[k] == caps[..n][i];
          assert Bind(names, caps)[k] == caps[i];
        }
      }
    }
  }

  /** Round trip: a path built from a template's parts, with each
      placeholder replaced by a word, matches the compiled regexp, and
      `retrieve_placeholders` maps each placeholder name to the word put in
      its place, provided no later placeholder has the same name. */
  lemma PlaceholderRoundTrip(parts: seq<string>, pieces: seq<string>, i: nat)
    requires PatternOk(CompileParts(parts)) && |pieces| == |parts|
    requires forall j :: 0 <= j < |parts| ==> SegmentMatches(CompileParts(parts)[j], pieces[j])
    requires i < |parts| && IsPlaceholder(parts[i])
    requires forall j :: i < j < |parts| && IsPlaceholder(parts[j]) ==> parts[j][1..] != parts[i][1..]
    ensures MatchPath(CompileParts(parts), Instance(pieces)) == Some(Captures(CompileParts(parts), pieces))
    ensures |PlaceholderNames(parts)| == |Captures(CompileParts(parts), pieces)| &&
      var h := Bind(PlaceholderNames(parts), Captures(CompileParts(parts), pieces));
      parts[i][1..] in h && h[parts[i][1..]] == pieces[i]
  {
    var pattern := CompileParts(parts);
    MatchPathComplete(pattern, pieces);
    PlaceholderCount(parts);
    var names, caps := PlaceholderNames(parts), Captures(pattern, pieces);
    var k := CaptureCount(CompileParts(parts[..i]));
    PlaceholderOrder(parts, i);
    PlaceholderCapture(parts, pieces, i);
    PlaceholderLastName(parts, i);
    BindLast(names, caps, k);
  }

  /** The capture of the piece at `:` part i sits at the index that
      counts the capture groups to its left. */
  lemma PlaceholderCapture(parts: seq<string>, pieces: seq<string>, i: nat)
    requires |pieces| == |parts| && i < |parts| && IsPlaceholder(parts[i])
    ensures var k := CaptureCount(CompileParts(parts[..i]));
      k < |Captures(CompileParts(parts), pieces)| && Captures(CompileParts(parts), pieces)[k] == pieces[i]
  {
    var pattern := CompileParts(parts);
    CompilePartsAppend(parts[..i], parts[i..]);
    assert parts == parts[..i] + parts[i..];
    assert pattern[..i] == CompileParts(parts[..i]);
    CapturesOrder(pattern, pieces, i);
  }

  // ---------------------------------------------------------------------
  // retrieve_target and convert_target

  /** The controller and action names that `convert_target` extracts. */
  datatype TargetName = TargetName(controller: string, action: string)

  /** `placeholders[key]`, interpolated: a missing key gives `""`. */
  function Get(h: map<string, string>, key: string): string
  {
    if key in h then h[key] else ""
  }

  /** `"#{controller}##{action}"` from the placeholder hash. */
  function RetrieveTarget(h: map<string, string>): string
  {
    Get(h, "controller") + "#" + Get(h, "action")
  }

  /** Index of the first `#` in `t`. */
  function HashIndex(t: string): (r: Option<nat>)
    ensures r.Some? ==> r.value < |t| && t[r.value] == '#' && '#' !in t[..r.value]
    ensures r.None? ==> '#' !in t
  {
    if t == [] then None
    else if t[0] == '#' then Some(0)
    else match HashIndex(t[1..])
      case None => None
      case Some(i) => assert t[..i + 1] == [t[0]] + t[1..][..i]; Some(i + 1)
  }

  /** `/^(?<controller_name>[^#]+)#(?<action_name>[^#]+)$/.match(target)`:
      the text before and after the first `#`, when both are non-empty and
      the rest has no further `#`. */
  function ParseTarget(t: string): Option<TargetName>
  {
    match HashIndex(t)
    case None => None
    case Some(i) =>
      var controller, action := t[..i], t[i + 1..];
      if controller != [] && action != [] && '#' !in action then Some(TargetName(controller, action))
      else None
  }

  /** The parse succeeds exactly when `t` has one `#` with text on both
      sides, and then splits `t` at that `#`. */
  lemma ParseTargetSpec(t: string)
    ensures ParseTarget(t).Some? <==> |t| > 0 && multiset(t)['#'] == 1 && t[0] != '#' && t[|t| - 1] != '#'
    ensures ParseTarget(t).Some? ==>
      var r := ParseTarget(t).value;
      t == r.controller + "#" + r.action && '#' !in r.controller && '#' !in r.action
  {
    if ParseTarget(t).Some? {
      ParseTargetSound(t);
    } else if |t| > 0 && multiset(t)['#'] == 1 && t[0] != '#' && t[|t| - 1] != '#' {
      ParseTargetComplete(t);
    }
  }

  lemma ParseTargetSound(t: string)
    requires ParseTarget(t).Some?
    ensures var r := ParseTarget(t).value;
      t == r.controller + "#" + r.action && '#' !in r.controller && '#' !in r.action
    ensures |t| > 0 && multiset(t)['#'] == 1 && t[0] != '#' && t[|t| - 1] != '#'
  {
    var i := HashIndex(t).value;
    var controller, action := t[..i], t[i + 1..];
    assert t == controller + "#" + action;
    assert multiset(t) == multiset(controller) + multiset{'#'} + multiset(action);
    assert t[0] == controller[0] && controller[0] in controller;
    assert t[|t| - 1] == action[|action| - 1] && action[|action| - 1] in action;
  }

  lemma ParseTargetComplete(t: string)
    requires |t| > 0 && multiset(t)['#'] == 1 && t[0] != '#' && t[|t| - 1] != '#'
    ensures ParseTarget(t).Some?
  {
    assert '#' in multiset(t);
    var i := HashIndex(t).value;
    var controller, action := t[..i], t[i + 1..];
    assert t == controller + "#" + action;
    assert multiset(t) == multiset(controller) + multiset{'#'} + multiset(action);
  }

  lemma ParseTargetJoined(c: string, a: string)
    requires c != "" && a != "" && '#' !in c && '#' !in a
    ensures ParseTarget(c + "#" + a) == Some(TargetName(c, a))
  {
    var t := c + "#" + a;
    HashIndexJoined(c, a);
    assert t[..|c|] == c && t[|c| + 1..] == a;
  }

  /** The first `#` of `c + "#" + a` is the one after `c` when `c` has none. */
  lemma HashIndexJoined(c: string, a: string)
    requires '#' !in c
    ensures HashIndex(c + "#" + a) == Some(|c|)
  {
    var t := c + "#" + a;
    assert t[|c|] == '#';
  }

  // ---------------------------------------------------------------------
  // Lookup

  /** What `check_url` returns: the controller and action handed on, `nil`
      from `convert_target` after a route matched, or the route table itself
      when no route matched. */
  datatype LookupResult = Dispatched(name: TargetName) | Unresolved | NoMatch

  /** `convert_target` up to the controller and action names. */
  function ConvertTarget(t: string): LookupResult
  {
    match ParseTarget(t)
    case Some(name) => Dispatched(name)
    case None => Unresolved
  }

  /** The result for a route that matched with these captures: the static
      target verbatim, or `controller#action` from the placeholders. A route
      that matched never yields `NoMatch`. */
  function Resolve(route: Route, caps: seq<string>): (r: LookupResult)
    requires |caps| == |route.placeholders|
    ensures !r.NoMatch?
  {
    var h := Bind(route.placeholders, caps);
    var target := if route.target.Some? then route.target.value else RetrieveTarget(h);
    ConvertTarget(target)
  }

  /** A route with a static target resolves it whatever the captures are. */
  lemma StaticTargetResolution(route: Route, caps: seq<string>)
    requires |caps| == |route.placeholders| && route.target.Some?
    ensures Resolve(route, caps) == ConvertTarget(route.target.value)
    ensures (exists c, a :: c != "" && a != "" && '#' !in c && '#' !in a && route.target.value == c + "#" + a) <==>
      Resolve(route, caps).Dispatched?
  {
    ParseTargetSpec(route.target.value);
    if Resolve(route, caps).Dispatched? {
      var n := ParseTarget(route.target.value).value;
      assert n.controller != "" by {
        assert route.target.value[0] != '#';
      }
      assert n.action != "" by {
        var t := route.target.value;
        assert t[|t| - 1] != '#';
      }
    }
    if exists c, a :: c != "" && a != "" && '#' !in c && '#' !in a && route.target.value == c + "#" + a {
      var c, a :| c != "" && a != "" && '#' !in c && '#' !in a && route.target.value == c + "#" + a;
      ParseTargetJoined(c, a);
    }
  }

  /** A route without a static target, matched with word captures, resolves
      exactly when it has both a `controller` and an `action` placeholder, and
      then to their captured values. */
  lemma DynamicTargetResolution(route: Route, caps: seq<string>)
    requires |caps| == |route.placeholders| && route.target.None? && AllWords(caps)
    ensures Resolve(route, caps).Dispatched? <==>
      "controller" in route.placeholders && "action" in route.placeholders
    ensures Resolve(route, caps).Dispatched? ==>
      var h := Bind(route.placeholders, caps);
      Resolve(route, caps).name == TargetName(Get(h, "controller"), Get(h, "action"))
  {
    var names := route.placeholders;
    var h := Bind(names, caps);
    BindHas(names, caps, "controller");
    BindHas(names, caps, "action");
    BindWords(names, caps);
    TargetFromHash(h);
  }

  /** A name is a key of the hash exactly when it is a placeholder name. */
  lemma BindHas(names: seq<string>, caps: seq<string>, key: string)
    requires |names| == |caps|
    ensures key in Bind(names, caps) <==> key in names
  {
    BindKeys(names, caps);
    if key in names {
      var i :| 0 <= i < |names| && names[i] == key;
    }
  }

  /** Captured words contain no `#`, and neither does any value of the hash. */
  lemma BindWords(names: seq<string>, caps: seq<string>)
    requires |names| == |caps| && AllWords(caps)
    ensures forall k :: k in Bind(names, caps) ==> IsWord(Bind(names, caps)[k]) && '#' !in Bind(names, caps)[k]
  {
    var h := Bind(names, caps);
    BindValues(names, caps);
    forall k | k in h
      ensures IsWord(h[k]) && '#' !in h[k]
    {
      var i :| 0 <= i < |caps| && h[k] == caps[i];
      assert IsWord(caps[i]);
      assert !IsWordChar('#');
    }
  }

  /** The target built from a hash of words parses exactly when both keys
      are present, and then into their values. */
  lemma TargetFromHash(h: map<string, string>)
    requires forall k :: k in h ==> IsWord(h[k]) && '#' !in h[k]
    ensures ConvertTarget(RetrieveTarget(h)).Dispatched? <==> "controller" in h && "action" in h
    ensures ConvertTarget(RetrieveTarget(h)).Dispatched? ==>
      ConvertTarget(RetrieveTarget(h)).name == TargetName(Get(h, "controller"), Get(h, "action"))
  {
    var t := RetrieveTarget(h);
    ParseTargetSpec(t);
    if "controller" in h && "action" in h {
      ParseTargetJoined(h["controller"], h["action"]);
    } else if "controller" !in h {
      assert t[0] == '#';
    } else {
      assert t[|t| - 1] == '#';
    }
  }

  /** Before matching, a route with a default strips one trailing slash from
      the path and appends its default suffix. */
  function Rewrite(route: Route, path: string): string
  {
    if route.default.Some? then Chomp(path) + route.default.value else path
  }

  predicate AllWellFormed(routes: seq<Route>)
  {
    forall i :: 0 <= i < |routes| ==> WellFormed(routes[i])
  }

  /** The path as it stands after the rewrites of the first k routes: the
      rewrite of one default route carries over to every later route. */
  function RewrittenPath(routes: seq<Route>, url: string, k: nat): string
    requires k <= |routes|
  {
    if k == 0 then url else Rewrite(routes[k - 1], RewrittenPath(routes, url, k - 1))
  }

  /** What route i's regexp makes of the path it is tried on, which its own
      default has already rewritten. */
  function MatchAt(routes: seq<Route>, url: string, i: nat): Option<seq<string>>
    requires i < |routes|
  {
    MatchPath(routes[i].pattern, RewrittenPath(routes, url, i + 1))
  }

  /** What every route's regexp makes of the path it is tried on, in order. */
  function Attempts(routes: seq<Route>, url: string): (a: seq<Option<seq<string>>>)
    ensures |a| == |routes|
    ensures forall i :: 0 <= i < |routes| ==> a[i] == MatchAt(routes, url, i)
  {
    seq(|routes|, i requires 0 <= i < |routes| => MatchAt(routes, url, i))
  }

  // ---------------------------------------------------------------------
  // The first success in a sequence of attempts

  /** Where a scan stopped: the position of the first success and what it
      captured. */
  datatype Hit = Hit(index: nat, captures: seq<string>)

  /** The first success in `a` at position i or later. */
  function FirstSome(a: seq<Option<seq<string>>>, i: nat): (r: Option<Hit>)
    requires i <= |a|
    decreases |a| - i
  {
    if i == |a| then None
    else
      match a[i]
      case Some(caps) => Some(Hit(i, caps))
      case None => FirstSome(a, i + 1)
  }

  /** A hit moved k positions to the right. */
  function Shift(r: Option<Hit>, k: nat): Option<Hit>
  {
    match r
    case None => None
    case Some(h) => Some(Hit(h.index + k, h.captures))
  }

  lemma {:induction false} FirstSomeSound(a: seq<Option<seq<string>>>, i: nat)
    requires i <= |a| && FirstSome(a, i).Some?
    ensures var h := FirstSome(a, i).value;
      i <= h.index < |a| && a[h.index] == Some(h.captures) &&
      forall j :: i <= j < h.index ==> a[j].None?
    decreases |a| - i
  {
    if a[i].None? {
      FirstSomeSound(a, i + 1);
    }
  }

  lemma {:induction false} FirstSomeFirst(a: seq<Option<seq<string>>>, i: nat, k: nat)
    requires i <= k < |a| && a[k].Some?
    requires forall j :: i <= j < k ==> a[j].None?
    ensures FirstSome(a, i) == Some(Hit(k, a[k].value))
    decreases k - i
  {
    if i < k {
      FirstSomeFirst(a, i + 1, k);
    }
  }

  lemma {:induction false} FirstSomeNone(a: seq<Option<seq<string>>>, i: nat)
    requires i <= |a|
    ensures FirstSome(a, i).None? <==> forall j :: i <= j < |a| ==> a[j].None?
    decreases |a| - i
  {
    if i < |a| {
      FirstSomeNone(a, i + 1);
    }
  }

  /** `c` is `a` followed by `b`. */
  predicate Joined(c: seq<Option<seq<string>>>, a: seq<Option<seq<string>>>, b: seq<Option<seq<string>>>)
  {
    |c| == |a| + |b| &&
    (forall i :: 0 <= i < |a| ==> c[i] == a[i]) &&
    (forall j :: 0 <= j < |b| ==> c[|a| + j] == b[j])
  }

  /** Past the end of `a`, scanning `a` followed by `b` is scanning `b`. */
  lemma {:induction false} FirstSomeAfter(c: seq<Option<seq<string>>>, a: seq<Option<seq<string>>>, b: seq<Option<seq<string>>>, j: nat)
    requires Joined(c, a, b) && j <= |b|
    ensures FirstSome(c, |a| + j) == Shift(FirstSome(b, j), |a|)
    decreases |b| - j
  {
    if j < |b| {
      assert c[|a| + j] == b[j];
      FirstSomeAfter(c, a, b, j + 1);
    }
  }

  /** Scanning `a` followed by `b` finds the first success of `a`, or failing
      that the first success of `b`. */
  lemma {:induction false} FirstSomeAppend(c: seq<Option<seq<string>>>, a: seq<Option<seq<string>>>, b: seq<Option<seq<string>>>, i: nat)
    requires Joined(c, a, b) && i <= |a|
    ensures FirstSome(c, i) ==
      if FirstSome(a, i).Some? then FirstSome(a, i) else Shift(FirstSome(b, 0), |a|)
    decreases |a| - i
  {
    if i == |a| {
      FirstSomeAfter(c, a, b, 0);
    } else {
      assert c[i] == a[i];
      FirstSomeAppend(c, a, b, i + 1);
    }
  }

  // ---------------------------------------------------------------------
  // check_url

  /** The scan of `check_url`: the first route whose regexp matches. */
  function FirstMatch(routes: seq<Route>, url: string): Option<Hit>
  {
    FirstSome(Attempts(routes, url), 0)
  }

  /** Soundness of the scan: it stops at a route that matches, with that
      route's captures, and every route before it failed to match. */
  lemma FirstMatchSound(routes: seq<Route>, url: string)
    requires FirstMatch(routes, url).Some?
    ensures var h := FirstMatch(routes, url).value;
      h.index < |routes| && MatchAt(routes, url, h.index) == Some(h.captures) &&
      (forall j :: 0 <= j < h.index ==> MatchAt(routes, url, j).None?)
  {
    var a := Attempts(routes, url);
    FirstSomeSound(a, 0);
    var h := FirstSome(a, 0).value;
    forall j | 0 <= j < h.index
      ensures MatchAt(routes, url, j).None?
    {
      assert a[j].None?;
    }
  }

  /** First match wins: when route k is the first whose regexp matches, the
      scan stops there with its captures. */
  lemma FirstMatchFirst(routes: seq<Route>, url: string, k: nat)
    requires k < |routes| && MatchAt(routes, url, k).Some?
    requires forall j :: 0 <= j < k ==> MatchAt(routes, url, j).None?
    ensures FirstMatch(routes, url) == Some(Hit(k, MatchAt(routes, url, k).value))
  {
    var a := Attempts(routes, url);
    forall j | 0 <= j < k
      ensures a[j].None?
    {
      assert MatchAt(routes, url, j).None?;
    }
    FirstSomeFirst(a, 0, k);
  }

  /** The scan finds nothing exactly when no route's regexp matches the path
      it is tried on. */
  lemma FirstMatchNone(routes: seq<Route>, url: string)
    ensures FirstMatch(routes, url).None? <==>
      forall i :: 0 <= i < |routes| ==> MatchAt(routes, url, i).None?
  {
    var a := Attempts(routes, url);
    FirstSomeNone(a, 0);
    if forall i :: 0 <= i < |routes| ==> MatchAt(routes, url, i).None? {
      forall j | 0 <= j < |a|
        ensures a[j].None?
      {
        assert MatchAt(routes, url, j).None?;
      }
    }
  }

  /** The scan stops at hit h exactly when route h.index is the first route
      that matches, with captures h.captures. */
  lemma FirstMatchIff(routes: seq<Route>, url: string, h: Hit)
    ensures FirstMatch(routes, url) == Some(h) <==>
      h.index < |routes| && MatchAt(routes, url, h.index) == Some(h.captures) &&
      forall j :: 0 <= j < h.index ==> MatchAt(routes, url, j).None?
  {
    if FirstMatch(routes, url) == Some(h) {
      FirstMatchSound(routes, url);
    }
    if h.index < |routes| && MatchAt(routes, url, h.index) == Some(h.captures) &&
       forall j :: 0 <= j < h.index ==> MatchAt(routes, url, j).None? {
      FirstMatchFirst(routes, url, h.index);
    }
  }

  /** `check_url(url)`: the result of the first route that matches, or
      `NoMatch` when none does. */
  function Lookup(routes: seq<Route>, url: string): LookupResult
    requires AllWellFormed(routes)
  {
    match FirstMatch(routes, url)
    case None => NoMatch
    case Some(h) =>
      FirstMatchSound(routes, url);
      Resolve(routes[h.index], h.captures)
  }

  /** When route i is the first whose regexp matches, `check_url` returns
      route i's result, whether or not its target parses. */
  lemma LookupFirstMatch(routes: seq<Route>, url: string, i: nat)
    requires AllWellFormed(routes) && i < |routes|
    requires MatchAt(routes, url, i).Some?
    requires forall j :: 0 <= j < i ==> MatchAt(routes, url, j).None?
    ensures Lookup(routes, url) == Resolve(routes[i], MatchAt(routes, url, i).value)
  {
    FirstMatchFirst(routes, url, i);
  }

  /** `check_url` reports no match exactly when no route's regexp matches the
      path it is tried on. */
  lemma LookupNoMatch(routes: seq<Route>, url: string)
    requires AllWellFormed(routes)
    ensures Lookup(routes, url).NoMatch? <==>
      forall i :: 0 <= i < |routes| ==> MatchAt(routes, url, i).None?
  {
    FirstMatchNone(routes, url);
  }

  // ---------------------------------------------------------------------
  // Registering more routes

  lemma {:induction false} RewrittenPathPrefix(routes: seq<Route>, more: seq<Route>, url: string, k: nat)
    requires k <= |routes|
    ensures RewrittenPath(routes + more, url, k) == RewrittenPath(routes, url, k)
  {
    if k > 0 {
      RewrittenPathPrefix(routes, more, url, k - 1);
      assert (routes + more)[k - 1] == routes[k - 1];
    }
  }

  lemma {:induction false} RewrittenPathAfter(routes: seq<Route>, more: seq<Route>, url: string, k: nat)
    requires k <= |more|
    ensures RewrittenPath(routes + more, url, |routes| + k) ==
      RewrittenPath(more, RewrittenPath(routes, url, |routes|), k)
  {
    if k == 0 {
      RewrittenPathPrefix(routes, more, url, |routes|);
    } else {
      RewrittenPathAfter(routes, more, url, k - 1);
      assert (routes + more)[|routes| + k - 1] == more[k - 1];
    }
  }

  /** The routes registered first are tried exactly as before; the appended
      ones are tried on the path the earlier routes left. */
  lemma AttemptsAppend(routes: seq<Route>, more: seq<Route>, url: string)
    ensures Joined(Attempts(routes + more, url), Attempts(routes, url),
      Attempts(more, RewrittenPath(routes, url, |routes|)))
  {
    AttemptsPrefix(routes, more, url);
    AttemptsAfter(routes, more, url);
  }

  lemma AttemptsPrefix(routes: seq<Route>, more: seq<Route>, url: string)
    ensures forall i :: 0 <= i < |routes| ==> Attempts(routes + more, url)[i] == Attempts(routes, url)[i]
  {
    forall i | 0 <= i < |routes|
      ensures Attempts(routes + more, url)[i] == Attempts(routes, url)[i]
    {
      MatchAtPrefix(routes, more, url, i);
    }
  }

  lemma AttemptsAfter(routes: seq<Route>, more: seq<Route>, url: string)
    ensures forall j :: 0 <= j < |more| ==>
      Attempts(routes + more, url)[|routes| + j] == Attempts(more, RewrittenPath(routes, url, |routes|))[j]
  {
    forall j | 0 <= j < |more|
      ensures Attempts(routes + more, url)[|routes| + j] == Attempts(more, RewrittenPath(routes, url, |routes|))[j]
    {
      MatchAtAfter(routes, more, url, j);
    }
  }

  /** The routes registered first are tried exactly as before. */
  lemma MatchAtPrefix(routes: seq<Route>, more: seq<Route>, url: string, i: nat)
    requires i < |routes|
    ensures MatchAt(routes + more, url, i) == MatchAt(routes, url, i)
  {
    RewrittenPathPrefix(routes, more, url, i + 1);
    assert (routes + more)[i] == routes[i];
  }

  /** The appended routes are tried on the path the earlier routes left. */
  lemma MatchAtAfter(routes: seq<Route>, more: seq<Route>, url: string, j: nat)
    requires j < |more|
    ensures MatchAt(routes + more, url, |routes| + j) ==
      MatchAt(more, RewrittenPath(routes, url, |routes|), j)
  {
    RewrittenPathAfter(routes, more, url, j + 1);
    assert (routes + more)[|routes| + j] == more[j];
  }

  lemma AllWellFormedAppend(routes: seq<Route>, more: seq<Route>)
    requires AllWellFormed(routes) && AllWellFormed(more)
    ensures AllWellFormed(routes + more)
  {
    var all := routes + more;
    forall i | 0 <= i < |all|
      ensures WellFormed(all[i])
    {
      if i >= |routes| {
        assert all[i] == more[i - |routes|];
      }
    }
  }

  /** The scan of a longer table finds the first match among the routes
      registered first, or failing that among the appended routes tried on the
      path the earlier default routes left. */
  lemma FirstMatchAppend(routes: seq<Route>, more: seq<Route>, url: string)
    ensures FirstMatch(routes + more, url) ==
      if FirstMatch(routes, url).Some? then FirstMatch(routes, url)
      else Shift(FirstMatch(more, RewrittenPath(routes, url, |routes|)), |routes|)
  {
    AttemptsAppend(routes, more, url);
    FirstSomeAppend(Attempts(routes + more, url), Attempts(routes, url),
      Attempts(more, RewrittenPath(routes, url, |routes|)), 0);
  }

  /** Routes registered later are never consulted once an earlier one
      matched; if none did, the later routes are tried on the path as the
      earlier default routes left it. */
  lemma LookupAppend(routes: seq<Route>, more: seq<Route>, url: string)
    requires AllWellFormed(routes) && AllWellFormed(more)
    ensures AllWellFormed(routes + more)
    ensures !Lookup(routes, url).NoMatch? ==> Lookup(routes + more, url) == Lookup(routes, url)
    ensures Lookup(routes, url).NoMatch? ==>
      Lookup(routes + more, url) == Lookup(more, RewrittenPath(routes, url, |routes|))
  {
    AllWellFormedAppend(routes, more);
    FirstMatchAppend(routes, more, url);
    var path := RewrittenPath(routes, url, |routes|);
    if FirstMatch(routes, url).Some? {
      var h := FirstMatch(routes, url).value;
      FirstMatchSound(routes, url);
      assert (routes + more)[h.index] == routes[h.index];
    } else if FirstMatch(more, path).Some? {
      var h := FirstMatch(more, path).value;
      FirstMatchSound(more, path);
      assert (routes + more)[|routes| + h.index] == more[h.index];
    }
  }
}
