# Simplemvc router, modelled in Dafny

`Simplemvc::Router` keeps an ordered table of routes and maps a request path
to a `controller#action` target. `match(template, target)` compiles a
template such as `/users/:id` into an anchored regexp. Each `:name` part
becomes the capture group `([A-Za-z0-9_]+)` and each other part stays
literal. The route stores the placeholder names, an optional static target,
and an optional default suffix. `check_url(path)` tries the routes in
registration order:

- a route with a default first strips one trailing `/` from the path and
  appends its suffix;
- the first route whose regexp matches wins;
- its placeholders are zipped with the captures into a hash;
- its target is the static one, or `"#{controller}##{action}"` built from
  that hash;
- the target is parsed by `^([^#]+)#([^#]+)$`.

The model is split into four modules, plus one module of properties:

- `Text` (`text.dfy`): Ruby's `split("/")`, which drops trailing empty
  strings, `join("/")`, `chomp("/")` and the word characters of the capture
  group. Split and join are proved to be inverses.
- `Routes` (`routes.dfy`): a declaration (no target, a static target, or a
  `default:` hash) and its compilation into a `Route`, covering
  `determine_target_and_default`, `get_url_parts` and `get_regexp`.
  - A compiled regexp is a sequence of segments, each `Literal(text)` or
    `Capture`.
  - Every compiled route is well formed: it has one placeholder name per
    capture group, and its literals are non-empty and slash-free.
- `Matching` (`matching.dfy`): the match as a function, plus the rest of
  `check_url` as functions.
  - `MatchPath` is what the anchored regexp makes of a path. It is proved
    sound and complete against "one matching piece per segment", and it is
    proved anchored.
  - `Bind` is `retrieve_placeholders`. `RetrieveTarget` is
    `retrieve_target`. `ParseTarget` and `ConvertTarget` model
    `convert_target`.
  - `Lookup` is the whole of `check_url`. The path rewrites of default
    routes accumulate, so route i is tried on `RewrittenPath(routes, url,
    i + 1)`.
- `Simplemvc` (`router.dfy`): the class `Router`.
  - Its field `routes` is the `@routes` table.
  - `Match` appends one route and keeps every route well formed.
  - `CheckUrl` walks the table with a loop and is proved to return
    `Lookup(routes, url)`.
  - The private helpers `GetUrlParts`, `GetRegexp` and
    `RetrievePlaceholders` are loops, each proved to compute its function.
- `DefaultRoutes` (`defaults.dfy`): what a `default:` route does to a path.

`check_url` has three outcomes, modelled by `LookupResult`:

- `Dispatched(TargetName(controller, action))`: the target parsed. The
  source goes on to hand these names to the controller class.
- `Unresolved`: a route matched, but its target did not parse, so
  `convert_target` returns `nil`. Later routes are not tried.
- `NoMatch`: no route matched. `@routes.each` then returns the table
  itself, which is distinct from `nil`.

Two behaviours of the code are proved as they are written:

- The rewritten path carries over. `check_url` rebinds `url`, so a default
  route's rewrite stays in place for every later route
  (`DefaultRoutes.RewriteCarriesOver`, `Matching.LookupAppend`). One might
  expect the rewrite to apply only to the route's own match attempt, but it
  persists.
- A path that already names an action never matches a default route,
  because the suffix is appended unconditionally
  (`DefaultRoutes.ExplicitActionRejected`).

## Model

| member | source | states |
|---|---|---|
| Simplemvc.Router.constructor | lib/simplemvc/router.rb:3-5 | a new router has an empty route table, which is trivially well formed |
| Simplemvc.Router.Match | lib/simplemvc/router.rb:11-22 | the table becomes the old table plus exactly one route at the end, the compiled declaration; earlier routes are unchanged and every route stays well formed |
| Simplemvc.Router.CheckUrl | lib/simplemvc/router.rb:24-39 | the loop, whose invariants carry the accumulated rewrite and the fact that no scanned route matched, returns exactly `Lookup(routes, url)` |
| Simplemvc.Router.GetUrlParts | lib/simplemvc/router.rb:60-65 | the in-place `select!` over the split pieces yields `UrlParts(url)` |
| Simplemvc.Router.GetRegexp | lib/simplemvc/router.rb:67-79 | the loop yields the placeholder names `PlaceholderNames(parts)` and the segments `CompileParts(parts)` |
| Simplemvc.Router.RetrievePlaceholders | lib/simplemvc/router.rb:81-88 | filling the hash one name at a time yields `Bind(names, captures)`, where a later duplicate name overwrites an earlier one |
| Text.Split | lib/simplemvc/router.rb:61 | splitting at `/` gives at least one piece, and no piece contains `/` |
| Text.JoinSplit | lib/simplemvc/router.rb:61 | joining the pieces of a split with `/` gives back the string |
| Text.SplitJoin | lib/simplemvc/router.rb:61 | splitting a `/`-join of slash-free pieces gives back the pieces |
| Text.RubySplit | lib/simplemvc/router.rb:61 | Ruby's `split("/")`; its contract is held by `Text.RubySplitDropsTrailing` |
| Text.RubySplitDropsTrailing | lib/simplemvc/router.rb:61 | `split("/")` is a prefix of the full split that ends in a non-empty piece, and every piece it drops is empty |
| Text.NonEmpty | lib/simplemvc/router.rb:62 | `select!` keeps no empty part, keeps no more parts than it was given, and keeps the parts slash-free; which parts it keeps, in order, is fixed by `Text.NonEmptyAppend`, `Text.NonEmptyKeeps` and `Text.NonEmptyOfEmpties` |
| Text.NonEmptyAppend | lib/simplemvc/router.rb:62 | filtering a concatenation filters each half and keeps their order |
| Text.NonEmptyKeeps | lib/simplemvc/router.rb:62 | a list with no empty part is kept whole |
| Text.NonEmptyOfEmpties | lib/simplemvc/router.rb:62 | a list of empty parts is filtered to nothing |
| Text.Chomp | lib/simplemvc/router.rb:27 | `chomp("/")` removes exactly one trailing slash when there is one, and changes nothing otherwise |
| Routes.UrlParts | lib/simplemvc/router.rb:60-65 | the URL parts are non-empty and contain no `/` |
| Routes.UrlPartsAppend | lib/simplemvc/router.rb:60-65 | the parts of `a + "/" + b` are the parts of `a` followed by those of `b` |
| Routes.UrlPartsEmpty | lib/simplemvc/router.rb:60-65 | the empty template has no parts |
| Routes.UrlPartsLeadingSlash | lib/simplemvc/router.rb:60-65 | a leading slash changes no part |
| Routes.UrlPartsTrailingSlash | lib/simplemvc/router.rb:60-65 | a trailing slash changes no part |
| Routes.UrlPartsDoubleSlash | lib/simplemvc/router.rb:60-65 | a repeated slash counts as a single slash |
| Routes.UrlPartsOfPath | lib/simplemvc/router.rb:60-65 | `"/" + join(parts)` splits back into exactly those parts when they are non-empty and slash-free |
| Routes.DetermineTargetAndDefault | lib/simplemvc/router.rb:43-58 | the target, default and template of a declaration; its contract is held by `Routes.DefaultRouteShape` and `Routes.PlainRouteShape` |
| Routes.PlaceholderNames | lib/simplemvc/router.rb:71 | the names pushed by `get_regexp`; its contract is held by `Routes.PlaceholderCount` and `Routes.PlaceholderOrder` |
| Routes.CompileParts | lib/simplemvc/router.rb:69-76 | part i compiles to a capture group when it starts with `:`, and to the literal part otherwise; there is one segment per part |
| Routes.PlaceholderCount | lib/simplemvc/router.rb:67-79 | there are as many placeholder names as capture groups |
| Routes.PlaceholderOrder | lib/simplemvc/router.rb:70-72 | the name of the `:` part i is `part[1..]`, and it stands at the index that counts the capture groups to its left, so names keep the order of their groups |
| Routes.Compile | lib/simplemvc/router.rb:11-22 | the compiled route is well formed, and never has both a static target and a default |
| Routes.DefaultRouteShape | lib/simplemvc/router.rb:50-54 | a `default:` declaration extends the template by `:action`: the regexp gains a final capture group, the names gain a final `"action"`, the default is `"/" + action`, and there is no target |
| Routes.PlainRouteShape | lib/simplemvc/router.rb:43-58 | without a hash, the template's own parts are compiled, there is no default, and the target is the given string or absent |
| Routes.UsersTemplate | lib/simplemvc/router.rb:11-22 | `/users/:id` compiles to the literal `users` and one capture group, named `id` |
| Routes.RootTemplate | lib/simplemvc/router.rb:11-22 | `/` compiles to the empty regexp `^/$` with no placeholders |
| Matching.MatchPath | lib/simplemvc/router.rb:31 | a match has one capture per capture group, and every capture is a non-empty word |
| Matching.MatchPathComplete | lib/simplemvc/router.rb:17 | a path of one matching piece per segment matches, with the pieces at the capture groups as its captures |
| Matching.MatchPathSound | lib/simplemvc/router.rb:17 | every matching path is such a path, and its captures are its pieces at the capture groups |
| Matching.MatchPathAnchored | lib/simplemvc/router.rb:17 | a matching path has exactly one slash per segment (one for `^/$`), has no `//`, and has no trailing slash unless it is `"/"`; the same path with a `/` appended does not match |
| Matching.Bind | lib/simplemvc/router.rb:81-88 | the placeholder hash; its contract is held by `Matching.BindKeys`, `Matching.BindLast` and `Matching.BindValues` |
| Matching.BindKeys | lib/simplemvc/router.rb:81-88 | the hash's keys are exactly the placeholder names |
| Matching.BindLast | lib/simplemvc/router.rb:81-88 | a name maps to the capture at its last occurrence |
| Matching.BindValues | lib/simplemvc/router.rb:81-88 | every value of the hash is one of the captures |
| Matching.PlaceholderRoundTrip | lib/simplemvc/router.rb:81-88 | substituting a matching piece for every part gives a path that the compiled regexp matches, and the placeholder hash maps each `:` part's name to the piece put in its place, unless a later part reuses the name |
| Matching.RetrieveTarget | lib/simplemvc/router.rb:90-95 | `"#{controller}##{action}"`; its contract is held by `Matching.TargetFromHash` |
| Matching.ParseTarget | lib/simplemvc/router.rb:98-101 | the target regexp of `convert_target`; its contract is held by `Matching.ParseTargetSpec` and `Matching.ParseTargetJoined` |
| Matching.ConvertTarget | lib/simplemvc/router.rb:97-107 | `Dispatched` with the parsed names, or `Unresolved`; its contract is held by `Matching.StaticTargetResolution` and `Matching.TargetFromHash` |
| Matching.ParseTargetSpec | lib/simplemvc/router.rb:98-101 | the target parses exactly when it contains one `#` with text on both sides, and then it is split at that `#` |
| Matching.ParseTargetJoined | lib/simplemvc/router.rb:98-101 | `c + "#" + a` with non-empty, `#`-free `c` and `a` parses to `(c, a)` |
| Matching.Resolve | lib/simplemvc/router.rb:33-37 | a route that matched never gives `NoMatch` |
| Matching.StaticTargetResolution | lib/simplemvc/router.rb:34-37 | a static target is used verbatim whatever the captures are, and dispatches exactly when it has the form `c#a` |
| Matching.DynamicTargetResolution | lib/simplemvc/router.rb:90-95 | without a static target, the route dispatches exactly when it has both a `controller` and an `action` placeholder, and then to their captured values; a missing key contributes `""` and leaves the target unparsable |
| Matching.TargetFromHash | lib/simplemvc/router.rb:90-95 | `"#{controller}##{action}"` over a hash of words parses exactly when both keys are present, and then to their values |
| Matching.Rewrite | lib/simplemvc/router.rb:26-29 | the chomp and append of a default route; its contract is held by `DefaultRoutes.DefaultActionApplied`, `DefaultRoutes.RewriteBreaksMatch` and `DefaultRoutes.RewriteCarriesOver` |
| Matching.Lookup | lib/simplemvc/router.rb:24-39 | the whole of `check_url`; its contract is held by `Matching.LookupFirstMatch`, `Matching.LookupNoMatch` and `Matching.LookupAppend` |
| Matching.FirstMatchIff | lib/simplemvc/router.rb:25-37 | the scan stops at route i with captures c exactly when route i matches its rewritten path with c and every earlier route does not |
| Matching.FirstMatchNone | lib/simplemvc/router.rb:25-38 | the scan finds nothing exactly when no route matches the path it is tried on |
| Matching.LookupFirstMatch | lib/simplemvc/router.rb:31-37 | when route i is the first to match, the lookup is that route's resolution, even when its target does not parse |
| Matching.LookupNoMatch | lib/simplemvc/router.rb:24-39 | the lookup is `NoMatch` exactly when no route matches |
| Matching.LookupAppend | lib/simplemvc/router.rb:24-39 | registering more routes keeps an earlier result that was not `NoMatch` (first match wins); otherwise the new routes are looked up on the path as rewritten by all the earlier routes |
| DefaultRoutes.DefaultActionApplied | lib/simplemvc/router.rb:26-29 | a path of the template's pieces, with or without a trailing slash (for `/`, also the empty path), matches its default route after the rewrite, with the default action as its last capture |
| DefaultRoutes.DefaultActionBound | lib/simplemvc/router.rb:83-84 | the hash of a default route maps `"action"` to the last capture, even when the template has its own `:action` |
| DefaultRoutes.RewriteBreaksMatch | lib/simplemvc/router.rb:27-28 | a path matched by a regexp no longer matches it once `/` and a non-empty, slash-free suffix are appended |
| DefaultRoutes.ExplicitActionRejected | lib/simplemvc/router.rb:26-31 | a path that already names an action never matches the default route |
| DefaultRoutes.RewriteCarriesOver | lib/simplemvc/router.rb:26-31 | behind a default route that does not match, a route without a default is tried on the rewritten path, so a path it matches on its own finds no route |
| DefaultRoutes.SingleRouteLookup | lib/simplemvc/router.rb:24-39 | a table of one route resolves that route's match on its rewritten path |
| DefaultRoutes.DefaultResolution | lib/simplemvc/router.rb:33-37 | a default route matched with word captures dispatches to the `:controller` capture and the default action when the template has `:controller`, and is unresolved otherwise |
| DefaultRoutes.DefaultRouteLookup | lib/simplemvc/router.rb:24-39 | `check_url` on a table of one default route dispatches a path of the template's pieces to the `:controller` capture and the default action, whatever controller the hash names |

## Left out

- `draw` evaluates the route block with `instance_eval`, which is Ruby
  metaprogramming with nothing to model. Routes are registered by calling
  `Match` directly.
- `convert_target` lines 102-105 (`to_camel_case`, `Object.const_get` and
  `controller.action`) call into code that is not part of this model. The
  model stops at the parsed names: `Dispatched(TargetName(controller,
  action))`. Failures of those calls are not modelled.
- Literal template parts are matched as exact text. Ruby would read regexp
  metacharacters in them (`.`, `*`, `(`, ...) as regexp syntax.
- `^` and `$` are modelled as anchors at the start and end of the string.
  Ruby's line anchors also match at a newline. Paths, templates and
  static targets that contain a newline are not modelled. For example,
  `convert_target` would parse the static target `"a#b\nc#d"` as `a` and
  `b`, while `Matching.ParseTarget` rejects it and the lookup is
  `Unresolved`.
- Declarations are typed:
  - a `default:` hash is assumed to have an `:action` entry;
  - a target is assumed to be a String or such a Hash;
  - only the first of `*args` is read, as in the source.

  A Hash without `:default`, or a target of another class, would raise or
  misbehave in Ruby.
- The controller named in a `default:` hash is never read by the source,
  and it is ignored by the model too (`DefaultRoutes.DefaultRouteLookup`).
- The regexp engine itself is not modelled. `Matching.MatchPath` states
  declaratively what the anchored regexp matches, given the two
  restrictions above.
- Matching.PlaceholderRoundTrip: stated for a placeholder whose name no
  later `:` part repeats. For a repeated name, `Matching.BindLast` gives
  the later value.
