/** The string operations the router relies on: Ruby's `String#split("/")`,
    `Array#join("/")`, `String#chomp("/")` and the word-character class
    `[A-Za-z0-9_]` of the placeholder capture group. */
module Text {

  /** No string of `ps` contains a slash. */
  predicate SlashFree(ps: seq<string>)
  {
    forall i :: 0 <= i < |ps| ==> '/' !in ps[i]
  }

  /** No string of `ps` is empty. */
  predicate AllNonEmpty(ps: seq<string>)
  {
    forall i :: 0 <= i < |ps| ==> ps[i] != ""
  }

  /** Every piece of `s` between slashes, in order, empty pieces included:
      a string with k slashes has k + 1 pieces. */
  function Split(s: string): (r: seq<string>)
    ensures |r| >= 1
    ensures SlashFree(r)
  {
    if s == [] then [""]
    else
      var rest := Split(s[1..]);
      if s[0] == '/' then [""] + rest
      else [[s[0]] + rest[0]] + rest[1..]
  }

  /** Ruby's `Array#join("/")`. */
  function JoinSlash(ps: seq<string>): string
  {
    if |ps| == 0 then ""
    else if |ps| == 1 then ps[0]
    else ps[0] + "/" + JoinSlash(ps[1..])
  }

  /** `ps` without its trailing run of empty strings. */
  function DropTrailingEmpty(ps: seq<string>): (r: seq<string>)
    ensures |r| <= |ps| && r == ps[..|r|]
    ensures r == [] || r[|r| - 1] != ""
    ensures forall i :: |r| <= i < |ps| ==> ps[i] == ""
  {
    if ps == [] then []
    else if ps[|ps| - 1] == "" then DropTrailingEmpty(ps[..|ps| - 1])
    else ps
  }

  /** Ruby's `String#split("/")`: the pieces between slashes, with the
      trailing empty pieces removed (so `"".split("/")` is empty). */
  function RubySplit(s: string): seq<string>
  {
    DropTrailingEmpty(Split(s))
  }

  /** `split("/")` keeps the pieces of the full split up to the last
      non-empty one and drops only empty pieces after it. */
  lemma RubySplitDropsTrailing(s: string)
    ensures var r := RubySplit(s);
      |r| <= |Split(s)| && r == Split(s)[..|r|] && (r == [] || r[|r| - 1] != "") &&
      forall i :: |r| <= i < |Split(s)| ==> Split(s)[i] == ""
  {
  }

  /** `ps` with every empty string removed, order kept (`select! { |p| !p.empty? }`). */
  function NonEmpty(ps: seq<string>): (r: seq<string>)
    ensures |r| <= |ps|
    ensures AllNonEmpty(r)
    ensures SlashFree(ps) ==> SlashFree(r)
  {
    if ps == [] then []
    else
      var last := ps[|ps| - 1];
      NonEmpty(ps[..|ps| - 1]) + (if last == "" then [] else [last])
  }

  /** Ruby's `String#chomp("/")`: one trailing slash removed, if there is one. */
  function Chomp(s: string): (r: string)
    ensures s == r || s == r + "/"
    ensures s == r + "/" <==> |s| > 0 && s[|s| - 1] == '/'
  {
    if |s| > 0 && s[|s| - 1] == '/' then s[..|s| - 1] else s
  }

  predicate IsWordChar(c: char)
  {
    ('A' <= c <= 'Z') || ('a' <= c <= 'z') || ('0' <= c <= '9') || c == '_'
  }

  /** `s` matches `[A-Za-z0-9_]+`. */
  predicate IsWord(s: string)
  {
    |s| > 0 && forall i :: 0 <= i < |s| ==> IsWordChar(s[i])
  }

  predicate AllWords(ss: seq<string>)
  {
    forall i :: 0 <= i < |ss| ==> IsWord(ss[i])
  }

  /** No two adjacent slashes in `s`. */
  predicate NoDoubleSlash(s: string)
  {
    forall k :: 0 <= k < |s| - 1 && s[k] == '/' ==> s[k + 1] != '/'
  }

  // ---------------------------------------------------------------------
  // Split and join

  /** Joining the pieces of a split gives back the string. */
  lemma {:induction false} JoinSplit(s: string)
    ensures JoinSlash(Split(s)) == s
  {
    if s != [] {
      JoinSplit(s[1..]);
      var rest := Split(s[1..]);
      if s[0] == '/' {
        assert Split(s) == [""] + rest;
        assert ([""] + rest)[1..] == rest;
      } else if |rest| == 1 {
        assert Split(s) == [[s[0]] + rest[0]];
      } else {
        var r := Split(s);
        assert r == [[s[0]] + rest[0]] + rest[1..];
        assert r[1..] == rest[1..];
        assert JoinSlash(rest) == rest[0] + "/" + JoinSlash(rest[1..]);
      }
    }
  }

  /** A string without a slash is one piece. */
  lemma {:induction false} SplitNoSlash(a: string)
    requires '/' !in a
    ensures Split(a) == [a]
  {
    if a != [] {
      assert '/' !in a[1..];
      SplitNoSlash(a[1..]);
      assert a == [a[0]] + a[1..];
    }
  }

  /** One step of `Split`: a slash starts a new piece, any other character
      joins the first piece. */
  lemma SplitCons(c: char, s: string)
    ensures Split([c] + s) ==
      if c == '/' then [""] + Split(s) else [[c] + Split(s)[0]] + Split(s)[1..]
  {
    assert ([c] + s)[0] == c && ([c] + s)[1..] == s;
  }

  /** Splitting distributes over a slash. */
  lemma {:induction false} SplitAppend(a: string, b: string)
    ensures Split(a + "/" + b) == Split(a) + Split(b)
  {
    if a == [] {
      assert a + "/" + b == ['/'] + b;
      SplitCons('/', b);
    } else {
      var c, rest := a[0], a[1..];
      assert a == [c] + rest;
      assert a + "/" + b == [c] + (rest + "/" + b);
      SplitCons(c, rest + "/" + b);
      SplitCons(c, rest);
      SplitAppend(rest, b);
      if c != '/' {
        ConsFirstPiece(c, Split(rest), Split(b));
      }
    }
  }

  /** Adding a character to the first piece of `pa + pb` adds it to `pa`'s. */
  lemma ConsFirstPiece(c: char, pa: seq<string>, pb: seq<string>)
    requires |pa| >= 1
    ensures [[c] + (pa + pb)[0]] + (pa + pb)[1..] == ([[c] + pa[0]] + pa[1..]) + pb
  {
    assert (pa + pb)[1..] == pa[1..] + pb;
  }

  /** Appending a piece appends a slash and the piece. */
  lemma {:induction false} JoinSlashAppend(ps: seq<string>, x: string)
    requires ps != []
    ensures JoinSlash(ps + [x]) == JoinSlash(ps) + "/" + x
  {
    var qs := ps + [x];
    assert qs[0] == ps[0] && qs[1..] == ps[1..] + [x];
    if |ps| > 1 {
      JoinSlashAppend(ps[1..], x);
    } else {
      assert qs[1..] == [x];
    }
  }

  /** Splitting a join of slash-free pieces gives back the pieces. */
  lemma {:induction false} SplitJoin(ps: seq<string>)
    requires |ps| >= 1 && SlashFree(ps)
    ensures Split(JoinSlash(ps)) == ps
  {
    SplitNoSlash(ps[0]);
    if |ps| > 1 {
      SplitJoin(ps[1..]);
      SplitAppend(ps[0], JoinSlash(ps[1..]));
      assert ps == [ps[0]] + ps[1..];
    }
  }

  // ---------------------------------------------------------------------
  // Removing empty pieces

  lemma {:induction false} NonEmptyAppend(a: seq<string>, b: seq<string>)
    ensures NonEmpty(a + b) == NonEmpty(a) + NonEmpty(b)
  {
    if b != [] {
      var init := b[..|b| - 1];
      assert (a + b)[..|a + b| - 1] == a + init;
      NonEmptyAppend(a, init);
    } else {
      assert a + b == a;
    }
  }

  lemma {:induction false} NonEmptyOfEmpties(ps: seq<string>)
    requires forall i :: 0 <= i < |ps| ==> ps[i] == ""
    ensures NonEmpty(ps) == []
  {
    if ps != [] {
      NonEmptyOfEmpties(ps[..|ps| - 1]);
    }
  }

  lemma {:induction false} NonEmptyKeeps(ps: seq<string>)
    requires AllNonEmpty(ps)
    ensures NonEmpty(ps) == ps
  {
    if ps != [] {
      NonEmptyKeeps(ps[..|ps| - 1]);
      assert ps == ps[..|ps| - 1] + [ps[|ps| - 1]];
    }
  }

  /** Dropping the trailing empty pieces first changes nothing once all empty
      pieces are removed. */
  lemma NonEmptyRubySplit(s: string)
    ensures NonEmpty(RubySplit(s)) == NonEmpty(Split(s))
  {
    var ps := Split(s);
    var r := DropTrailingEmpty(ps);
    assert ps == r + ps[|r|..];
    NonEmptyAppend(r, ps[|r|..]);
    NonEmptyOfEmpties(ps[|r|..]);
  }

  // ---------------------------------------------------------------------
  // The shape of a join

  /** A join of k non-empty slash-free pieces has k - 1 slashes, none of them
      adjacent and none at either end. */
  lemma {:induction false} JoinShape(ps: seq<string>)
    requires |ps| >= 1 && SlashFree(ps) && AllNonEmpty(ps)
    ensures var j := JoinSlash(ps);
      |j| > 0 && j[0] != '/' && j[|j| - 1] != '/' && NoDoubleSlash(j) &&
      multiset(j)['/'] == |ps| - 1
  {
    var p := ps[0];
    assert p[0] in p;
    assert p[|p| - 1] in p;
    assert multiset(p)['/'] == 0;
    if |ps| > 1 {
      JoinShape(ps[1..]);
      var t := JoinSlash(ps[1..]);
      var j := p + "/" + t;
      assert JoinSlash(ps) == j;
      assert multiset(j) == multiset(p) + multiset{'/'} + multiset(t);
      forall k | 0 <= k < |j| - 1 && j[k] == '/'
        ensures j[k + 1] != '/'
      {
        if k == |p| {
          assert j[k + 1] == t[0];
        } else if k > |p| {
          assert j[k] == t[k - |p| - 1] && j[k + 1] == t[k - |p|];
        }
      }
    }
  }
}
