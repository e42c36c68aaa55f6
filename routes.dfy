/** Route compilation: `Router#match` and its private helpers
    `determine_target_and_default`, `get_url_parts` and `get_regexp`, as
    functions. The methods of `Simplemvc.Router` run these steps imperatively
    and are proved to agree with them. */
module Routes {
  import opened Text

  datatype Option<T> = None | Some(value: T)

  /** One `/`-separated piece of a compiled route regexp: a literal template
      part, or the capture group `([A-Za-z0-9_]+)` that a `:name` part becomes. */
  datatype Segment = Literal(text: string) | Capture

  /** The regexp `^/s1/s2/.../sn$`, kept as its list of segments. */
  type Pattern = seq<Segment>

  /** One entry of the route table: the hash `{regexp:, target:, placeholders:, default:}`. */
  datatype Route = Route(
    pattern: Pattern,
    target: Option<string>,
    placeholders: seq<string>,
    default: Option<string>)

  /** The optional second argument of `match`: nothing, a `"controller#action"`
      string, or a hash `{default: {controller: ..., action: ...}}`. */
  datatype Declaration =
    | NoTarget
    | Static(target: string)
    | DefaultTo(controller: string, action: string)

  /** What `determine_target_and_default` returns: `[target, default, url]`. */
  datatype Declared = Declared(target: Option<string>, default: Option<string>, template: string)

  /** A hash declaration appends `/:action` to the template, sets the default
      suffix to `"/" + action` and clears the target; the hash's controller is
      not read. A string is the static target. */
  function DetermineTargetAndDefault(decl: Declaration, url: string): Declared
  {
    match decl
    case NoTarget => Declared(None, None, url)
    case Static(t) => Declared(Some(t), None, url)
    case DefaultTo(_, action) => Declared(None, Some("/" + action), url + "/:action")
  }

  /** `get_url_parts`: the non-empty pieces of the template between slashes. */
  function UrlParts(template: string): (parts: seq<string>)
    ensures AllNonEmpty(parts) && SlashFree(parts)
  {
    NonEmpty(RubySplit(template))
  }

  /** `part[0] == ":"` */
  predicate IsPlaceholder(part: string)
  {
    |part| > 0 && part[0] == ':'
  }

  function CompileSegment(part: string): Segment
  {
    if IsPlaceholder(part) then Capture else Literal(part)
  }

  /** The regexp half of `get_regexp`: each part becomes its segment. */
  function CompileParts(parts: seq<string>): (r: Pattern)
    ensures |r| == |parts|
    ensures forall i :: 0 <= i < |parts| ==>
      if IsPlaceholder(parts[i]) then r[i] == Capture else r[i] == Literal(parts[i])
  {
    if parts == [] then []
    else CompileParts(parts[..|parts| - 1]) + [CompileSegment(parts[|parts| - 1])]
  }

  /** Number of capture groups of a pattern. */
  function CaptureCount(p: Pattern): nat
  {
    if p == [] then 0
    else CaptureCount(p[..|p| - 1]) + (if p[|p| - 1].Capture? then 1 else 0)
  }

  /** The placeholder half of `get_regexp`: `part[1..-1]` of every `:` part, in order. */
  function PlaceholderNames(parts: seq<string>): seq<string>
  {
    if parts == [] then []
    else
      var last := parts[|parts| - 1];
      PlaceholderNames(parts[..|parts| - 1]) + (if IsPlaceholder(last) then [last[1..]] else [])
  }

  /** One placeholder name per capture group of the compiled parts. */
  lemma {:induction false} PlaceholderCount(parts: seq<string>)
    ensures |PlaceholderNames(parts)| == CaptureCount(CompileParts(parts))
  {
    if parts != [] {
      var n := |parts| - 1;
      PlaceholderCount(parts[..n]);
      assert CompileParts(parts)[..n] == CompileParts(parts[..n]);
    }
  }

  /** Literal segments are non-empty and slash-free, as `get_url_parts` makes them. */
  predicate PatternOk(p: Pattern)
  {
    forall i :: 0 <= i < |p| && p[i].Literal? ==> p[i].text != "" && '/' !in p[i].text
  }

  /** One placeholder name per capture group, literal segments as `PatternOk` says. */
  predicate WellFormed(r: Route)
  {
    |r.placeholders| == CaptureCount(r.pattern) && PatternOk(r.pattern)
  }

  /** The route that `match(template, decl)` appends. It is well formed, and it
      never has both a static target and a default suffix. */
  function Compile(template: string, decl: Declaration): (r: Route)
    ensures WellFormed(r)
    ensures !(r.target.Some? && r.default.Some?)
  {
    var d := DetermineTargetAndDefault(decl, template);
    var parts := UrlParts(d.template);
    PlaceholderCount(parts);
    Route(CompileParts(parts), d.target, PlaceholderNames(parts), d.default)
  }

  // ---------------------------------------------------------------------
  // get_url_parts

  /** The parts of two templates joined by a slash are the parts of each, in
      order; hence leading, trailing and repeated slashes are all ignored. */
  lemma UrlPartsAppend(a: string, b: string)
    ensures UrlParts(a + "/" + b) == UrlParts(a) + UrlParts(b)
  {
    NonEmptyRubySplit(a + "/" + b);
    NonEmptyRubySplit(a);
    NonEmptyRubySplit(b);
    SplitAppend(a, b);
    NonEmptyAppend(Split(a), Split(b));
  }

  /** A template extended by one non-empty slash-free part has that part last. */
  lemma UrlPartsAppendPart(template: string, part: string)
    requires part != "" && '/' !in part
    ensures UrlParts(template + "/" + part) == UrlParts(template) + [part]
  {
    UrlPartsAppend(template, part);
    SplitNoSlash(part);
    NonEmptyRubySplit(part);
    NonEmptyKeeps([part]);
  }

  /** The empty template has no parts. */
  lemma UrlPartsEmpty()
    ensures UrlParts("") == []
  {
    assert Split("") == [""];
  }

  /** A leading slash does not change the parts. */
  lemma UrlPartsLeadingSlash(a: string)
    ensures UrlParts("/" + a) == UrlParts(a)
  {
    UrlPartsEmpty();
    UrlPartsAppend("", a);
    assert "" + "/" + a == "/" + a;
  }

  /** A trailing slash does not change the parts. */
  lemma UrlPartsTrailingSlash(a: string)
    ensures UrlParts(a + "/") == UrlParts(a)
  {
    UrlPartsEmpty();
    UrlPartsAppend(a, "");
    assert a + "/" + "" == a + "/";
  }

  /** A doubled slash counts as one. */
  lemma UrlPartsDoubleSlash(a: string, b: string)
    ensures UrlParts(a + "//" + b) == UrlParts(a + "/" + b)
  {
    UrlPartsAppend(a, "/" + b);
    assert a + "/" + ("/" + b) == a + "//" + b;
    UrlPartsLeadingSlash(b);
    UrlPartsAppend(a, b);
  }

  /** A slash followed by non-empty slash-free parts joined by slashes is split
      back into exactly those parts (for no parts, the template `"/"`). */
  lemma UrlPartsOfPath(ps: seq<string>)
    requires AllNonEmpty(ps) && SlashFree(ps)
    ensures UrlParts("/" + JoinSlash(ps)) == ps
  {
    UrlPartsLeadingSlash(JoinSlash(ps));
    NonEmptyRubySplit(JoinSlash(ps));
    if ps == [] {
      assert JoinSlash(ps) == "";
    } else {
      SplitJoin(ps);
      NonEmptyKeeps(ps);
    }
  }

  // ---------------------------------------------------------------------
  // get_regexp

  lemma {:induction false} PlaceholderNamesAppend(a: seq<string>, b: seq<string>)
    ensures PlaceholderNames(a + b) == PlaceholderNames(a) + PlaceholderNames(b)
  {
    if b == [] {
      assert a + b == a;
    } else {
      var init := b[..|b| - 1];
      assert (a + b)[..|a + b| - 1] == a + init;
      assert (a + b)[|a + b| - 1] == b[|b| - 1];
      PlaceholderNamesAppend(a, init);
    }
  }

  lemma {:induction false} CompilePartsAppend(a: seq<string>, b: seq<string>)
    ensures CompileParts(a + b) == CompileParts(a) + CompileParts(b)
  {
    if b == [] {
      assert a + b == a;
    } else {
      var init := b[..|b| - 1];
      assert (a + b)[..|a + b| - 1] == a + init;
      CompilePartsAppend(a, init);
    }
  }

  /** The placeholder of part i is the name of capture group k, where k counts
      the capture groups to the left of part i: names are recorded in
      left-to-right order, each being the part without its leading colon. */
  lemma PlaceholderOrder(parts: seq<string>, i: nat)
    requires i < |parts| && IsPlaceholder(parts[i])
    ensures var k := CaptureCount(CompileParts(parts[..i]));
      k < |PlaceholderNames(parts)| && PlaceholderNames(parts)[k] == parts[i][1..]
  {
    var pre, rest := parts[..i], parts[i + 1..];
    assert parts == pre + [parts[i]] + rest;
    PlaceholderNamesAppend(pre + [parts[i]], rest);
    PlaceholderNamesAppend(pre, [parts[i]]);
    PlaceholderCount(pre);
    assert PlaceholderNames([parts[i]]) == [parts[i][1..]] by {
      assert [parts[i]][..0] == [];
    }
    var names := PlaceholderNames(pre) + [parts[i][1..]];
    assert names[|PlaceholderNames(pre)|] == parts[i][1..];
  }

  /** Placeholder name m comes from a `:` part j with m capture groups to
      its left. */
  lemma {:induction false} PlaceholderSource(parts: seq<string>, m: nat)
    requires m < |PlaceholderNames(parts)|
    ensures exists j :: (0 <= j < |parts| && IsPlaceholder(parts[j]) &&
      PlaceholderNames(parts)[m] == parts[j][1..] && CaptureCount(CompileParts(parts[..j])) == m)
  {
    var n := |parts| - 1;
    var init := parts[..n];
    if m < |PlaceholderNames(init)| {
      PlaceholderSource(init, m);
      var j :| 0 <= j < |init| && IsPlaceholder(init[j]) &&
        PlaceholderNames(init)[m] == init[j][1..] && CaptureCount(CompileParts(init[..j])) == m;
      assert init[..j] == parts[..j];
    } else {
      PlaceholderCount(init);
      assert parts[..n] == init;
    }
  }

  /** Fewer parts have no more capture groups. */
  lemma PlaceholderCountMonotone(parts: seq<string>, j: nat, i: nat)
    requires j <= i <= |parts|
    ensures CaptureCount(CompileParts(parts[..j])) <= CaptureCount(CompileParts(parts[..i]))
  {
    PlaceholderCount(parts[..j]);
    PlaceholderCount(parts[..i]);
    assert parts[..i] == parts[..j] + parts[j..i];
    PlaceholderNamesAppend(parts[..j], parts[j..i]);
  }

  /** A placeholder whose name no later `:` part repeats has no later copy
      in the placeholder list. */
  lemma PlaceholderLastName(parts: seq<string>, i: nat)
    requires i < |parts| && IsPlaceholder(parts[i])
    requires forall j :: i < j < |parts| && IsPlaceholder(parts[j]) ==> parts[j][1..] != parts[i][1..]
    ensures var k := CaptureCount(CompileParts(parts[..i]));
      forall m :: k < m < |PlaceholderNames(parts)| ==> PlaceholderNames(parts)[m] != parts[i][1..]
  {
    var k := CaptureCount(CompileParts(parts[..i]));
    forall m | k < m < |PlaceholderNames(parts)|
      ensures PlaceholderNames(parts)[m] != parts[i][1..]
    {
      PlaceholderSource(parts, m);
      var j :| 0 <= j < |parts| && IsPlaceholder(parts[j]) && PlaceholderNames(parts)[m] == parts[j][1..] &&
        CaptureCount(CompileParts(parts[..j])) == m;
      if j <= i {
        PlaceholderCountMonotone(parts, j, i);
      }
    }
  }

  // ---------------------------------------------------------------------
  // match

  /** Appending `/:action` to a template appends the one part `":action"`. */
  lemma DefaultTemplateParts(template: string)
    ensures UrlParts(template + "/:action") == UrlParts(template) + [":action"]
  {
    UrlPartsAppendPart(template, ":action");
    assert template + "/:action" == template + "/" + ":action";
  }

  /** The part `":action"` compiles to a final capture group named `"action"`. */
  lemma ActionPartCompiled(parts: seq<string>)
    ensures CompileParts(parts + [":action"]) == CompileParts(parts) + [Capture]
    ensures PlaceholderNames(parts + [":action"]) == PlaceholderNames(parts) + ["action"]
  {
    var extended := parts + [":action"];
    assert extended[..|extended| - 1] == parts;
    assert IsPlaceholder(":action") && ":action"[1..] == "action";
  }

  /** A hash declaration compiles the template extended by one `:action`
      part: the pattern gains a final capture group, the names gain a final
      `"action"`, the default suffix is `"/" + action`, and there is no static
      target. */
  lemma DefaultRouteShape(template: string, controller: string, action: string)
    ensures var r := Compile(template, DefaultTo(controller, action));
      var parts := UrlParts(template);
      r.pattern == CompileParts(parts) + [Capture] &&
      r.placeholders == PlaceholderNames(parts) + ["action"] &&
      r.default == Some("/" + action) && r.target == None
  {
    DefaultTemplateParts(template);
    ActionPartCompiled(UrlParts(template));
  }

  /** A template without a hash declaration compiles its own parts. */
  lemma PlainRouteShape(template: string, decl: Declaration)
    requires !decl.DefaultTo?
    ensures var r := Compile(template, decl);
      r.pattern == CompileParts(UrlParts(template)) &&
      r.placeholders == PlaceholderNames(UrlParts(template)) &&
      r.default == None &&
      r.target == (if decl.Static? then Some(decl.target) else None)
  {
  }

  lemma UsersParts()
    ensures UrlParts("/users/:id") == ["users", ":id"]
  {
    var ps := ["users", ":id"];
    assert JoinSlash(ps) == "users/:id";
    UrlPartsOfPath(ps);
    assert "/users/:id" == "/" + JoinSlash(ps);
  }

  /** `match "/users/:id"` compiles to `^/users/([A-Za-z0-9_]+)$` with one placeholder `id`. */
  lemma UsersTemplate()
    ensures Compile("/users/:id", NoTarget) ==
      Route([Literal("users"), Capture], None, ["id"], None)
  {
    UsersParts();
    UsersCompiled();
  }

  lemma UsersCompiled()
    ensures CompileParts(["users", ":id"]) == [Literal("users"), Capture]
    ensures PlaceholderNames(["users", ":id"]) == ["id"]
  {
    var ps := ["users", ":id"];
    assert ps[..1] == ["users"];
    assert ["users"][..0] == [];
    assert IsPlaceholder(":id") && ":id"[1..] == "id";
    assert !IsPlaceholder("users");
  }

  /** The template `"/"` has no parts, so its regexp is `^/$`. */
  lemma RootTemplate()
    ensures Compile("/", NoTarget) == Route([], None, [], None)
  {
    UrlPartsOfPath([]);
    assert "/" == "/" + JoinSlash([]);
  }
}
