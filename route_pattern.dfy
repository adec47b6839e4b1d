/**
 * The string side of the router: `formatUri` (slash normalisation),
 * `matchRoute` (a route URI whose `{name}` placeholders each capture one or
 * more non-slash characters, anchored at both ends) and `extractParameters`
 * (placeholder names bound left to right to the captured values).
 *
 * A route URI is read as a list of tokens, literal text and placeholders,
 * exactly as `preg_replace('/\{[^}]+\}/', …)` cuts it. Literal text is matched
 * as exact text; a placeholder capture follows PCRE's greedy backtracking:
 * the longest slash-free run first, then shorter ones until the rest matches.
 */
module RoutePattern {
  import opened Wrappers
  import opened Text

  // ---------------------------------------------------------------- formatUri

  /** The shape every stored route URI has: a leading slash, no "//", no trailing slash except for the root. */
  predicate Normal(u: string) {
    && |u| > 0 && u[0] == '/'
    && NoRepeat(u, '/')
    && (u[|u| - 1] == '/' ==> u == "/")
  }

  /** `preg_replace('/\/+/', '/', $uri)`: every run of slashes becomes one slash. */
  function CollapseSlashes(s: string): (r: string)
    ensures NoRepeat(r, '/')
    ensures |r| > 0 <==> |s| > 0
    ensures |r| > 0 ==> r[0] == s[0]
    decreases |s|
  {
    if |s| >= 2 && s[0] == '/' && s[1] == '/' then CollapseSlashes(s[1..])
    else if s == [] then []
    else
      var t := CollapseSlashes(s[1..]);
      assert forall i :: 0 < i < |t| ==> ([s[0]] + t)[i + 1] == t[i];
      [s[0]] + t
  }

  /** A run of one or more slashes in front collapses to exactly one slash. */
  lemma {:induction false} CollapseRun(run: string, b: string)
    requires |run| >= 1 && forall i :: 0 <= i < |run| ==> run[i] == '/'
    requires b == [] || b[0] != '/'
    ensures CollapseSlashes(run + b) == "/" + CollapseSlashes(b)
    decreases |run|
  {
    var s := run + b;
    assert s[1..] == run[1..] + b;
    if |run| == 1 {
      assert run[1..] + b == b;
    } else {
      assert s[0] == '/' && s[1] == '/';
      CollapseRun(run[1..], b);
    }
  }

  /**
   * A run of slashes between two parts is replaced by exactly one slash,
   * and each part is collapsed on its own: nothing between runs is lost.
   */
  lemma {:induction false} CollapseSplit(a: string, run: string, b: string)
    requires a == [] || a[|a| - 1] != '/'
    requires |run| >= 1 && forall i :: 0 <= i < |run| ==> run[i] == '/'
    requires b == [] || b[0] != '/'
    ensures CollapseSlashes(a + run + b) == CollapseSlashes(a) + "/" + CollapseSlashes(b)
    decreases |a|
  {
    if a == [] {
      assert a + run + b == run + b;
      CollapseRun(run, b);
    } else {
      var s := a + run + b;
      assert s[0] == a[0] && s[1..] == a[1..] + run + b;
      CollapseSplit(a[1..], run, b);
      var ca, cb := CollapseSlashes(a[1..]), CollapseSlashes(b);
      if |a| == 1 {
        assert a[1..] == [];
        assert CollapseSlashes(s) == [a[0]] + CollapseSlashes(s[1..]);
        SlashAssocFront([a[0]], ca, cb);
      } else if a[0] == '/' && a[1] == '/' {
        assert s[1] == a[1];
        assert CollapseSlashes(s) == CollapseSlashes(s[1..]);
      } else {
        assert s[1] == a[1];
        assert CollapseSlashes(s) == [a[0]] + CollapseSlashes(s[1..]);
        SlashAssocFront([a[0]], ca, cb);
      }
    }
  }

  lemma SlashAssocFront(x: string, y: string, z: string)
    ensures x + (y + "/" + z) == x + y + "/" + z
  {
  }

  /** Text without slashes is left as it is. */
  lemma CollapseNoSlash(s: string)
    requires '/' !in s
    ensures CollapseSlashes(s) == s
  {
    CollapseFixesNoDoubleSlash(s);
  }

  /** `formatUri`: collapse slash runs, trim slashes at both ends, put one slash in front. */
  function FormatUri(s: string): (r: string)
    ensures |r| > 0 && r[0] == '/'
    ensures r[|r| - 1] == '/' ==> r == "/"
  {
    TrimEnds(CollapseSlashes(s), {'/'});
    "/" + Trim(CollapseSlashes(s), {'/'})
  }

  /** The result of `formatUri` always has the normal shape. */
  lemma FormatUriNormal(s: string)
    ensures Normal(FormatUri(s))
  {
    var c := CollapseSlashes(s);
    TrimKeepsNoRepeat(c, {'/'}, '/');
    TrimEnds(c, {'/'});
    SlashBeforeNormal(Trim(c, {'/'}));
  }

  /** One slash in front of slash-free ends and no "//" gives the normal shape. */
  lemma SlashBeforeNormal(t: string)
    requires NoRepeat(t, '/')
    requires t == [] || (t[0] != '/' && t[|t| - 1] != '/')
    ensures Normal("/" + t)
  {
    var u := "/" + t;
    assert forall i :: 0 < i < |u| ==> u[i] == t[i - 1];
  }

  lemma {:induction false} CollapseFixesNoDoubleSlash(s: string)
    requires NoRepeat(s, '/')
    ensures CollapseSlashes(s) == s
    decreases |s|
  {
    if s != [] {
      SliceNoRepeat(s, '/', 1, |s|);
      CollapseFixesNoDoubleSlash(s[1..]);
    }
  }

  /** A URI that already has the normal shape is left unchanged. */
  lemma FormatUriFixesNormal(u: string)
    requires Normal(u)
    ensures FormatUri(u) == u
  {
    CollapseFixesNoDoubleSlash(u);
    TrimOuterSlashes(u);
    assert "/" + u[1..] == u;
  }

  /** Trimming the slashes off a normal URI removes exactly its leading slash. */
  lemma TrimOuterSlashes(u: string)
    requires Normal(u)
    ensures Trim(u, {'/'}) == u[1..]
  {
    if |u| > 1 {
      assert !(u[0] == '/' && u[1] == '/');
      assert u[|u| - 1] != '/' by { assert u != "/"; }
    }
    TrimLeadingSlash(u);
  }

  lemma TrimLeadingSlash(u: string)
    requires |u| > 0 && u[0] == '/'
    requires |u| > 1 ==> u[1] != '/' && u[|u| - 1] != '/'
    ensures Trim(u, {'/'}) == u[1..]
  {
    var tail := u[1..];
    TrimLeftFirst(u, {'/'});
    if tail != [] {
      assert tail[0] == u[1] && tail[|tail| - 1] == u[|u| - 1];
      TrimNoop(tail, {'/'});
    }
  }

  /** Normalising twice is normalising once, so re-normalising a stored route URI changes nothing. */
  lemma FormatUriIdempotent(s: string)
    ensures FormatUri(FormatUri(s)) == FormatUri(s)
  {
    FormatUriNormal(s);
    FormatUriFixesNormal(FormatUri(s));
  }

  lemma {:induction false} CollapseKeepsText(s: string)
    ensures Without(CollapseSlashes(s), {'/'}) == Without(s, {'/'})
    decreases |s|
  {
    if s != [] {
      CollapseKeepsText(s[1..]);
    }
  }

  /**
   * `formatUri` only adds and removes slashes: the non-slash text is kept in order.
   * The empty URI and "/" both become the root.
   */
  lemma FormatUriKeepsText(s: string)
    ensures Without(FormatUri(s), {'/'}) == Without(s, {'/'})
    ensures FormatUri("") == "/" && FormatUri("/") == "/"
  {
    var c := CollapseSlashes(s);
    CollapseKeepsText(s);
    TrimKeepsWithout(c, '/');
    WithoutAppend("/", Trim(c, {'/'}), {'/'});
    assert Without("/", {'/'}) == [];
    assert CollapseSlashes("/") == "/";
  }

  // ---------------------------------------------------------------- route URI tokens

  datatype Token = Lit(text: string) | Param(name: string)

  /**
   * Where `\{[^}]+\}` matches at the start of `s`: `s` begins with "{" and
   * its first "}" comes after at least one other character. The value is
   * the index of that "}".
   */
  function Placeholder(s: string): (r: Option<nat>)
    ensures r.Some? ==> 2 <= r.value < |s| && s[0] == '{' && s[r.value] == '}' && '}' !in s[1..r.value]
    ensures (|s| > 0 && s[0] == '{' && exists j :: 2 <= j < |s| && s[j] == '}' && '}' !in s[1..j]) ==> r.Some?
  {
    if |s| > 0 && s[0] == '{' then
      match IndexOf(s, '}')
      case Some(j) => if j >= 2 then assert s[1..j] == s[..j][1..]; Some(j) else None
      case None => None
    else None
  }

  /** Adds one literal character in front, joining it to a leading literal. */
  function PushChar(c: char, toks: seq<Token>): seq<Token> {
    if |toks| > 0 && toks[0].Lit? then [Lit([c] + toks[0].text)] + toks[1..]
    else [Lit([c])] + toks
  }

  /** Cuts a route URI into literal text and `{name}` placeholders, scanning left to right. */
  function Tokenize(s: string): (r: seq<Token>)
    ensures Render(r) == s
    decreases |s|
  {
    if s == [] then []
    else match Placeholder(s)
      case Some(j) =>
        var rest := Tokenize(s[j + 1..]);
        RenderCons(Param(s[1..j]), rest);
        PlaceholderSplit(s, j);
        [Param(s[1..j])] + rest
      case None =>
        var rest := Tokenize(s[1..]);
        RenderPushChar(s[0], rest);
        assert s == [s[0]] + s[1..];
        PushChar(s[0], rest)
  }

  /** The text a token list stands for, each placeholder written back as `{name}`. */
  function Render(toks: seq<Token>): string {
    if toks == [] then []
    else match toks[0]
      case Lit(t) => t + Render(toks[1..])
      case Param(n) => "{" + n + "}" + Render(toks[1..])
  }

  /** A string with "{" in front and "}" at `j` is the placeholder followed by the rest. */
  lemma PlaceholderSplit(s: string, j: nat)
    requires 1 <= j < |s| && s[0] == '{' && s[j] == '}'
    ensures s == "{" + s[1..j] + "}" + s[j + 1..]
  {
    var t := "{" + s[1..j] + "}" + s[j + 1..];
    assert forall i :: 0 <= i < |s| ==> t[i] == s[i];
  }

  /** Rendering a list with a token in front writes that token first. */
  lemma RenderCons(t: Token, toks: seq<Token>)
    ensures Render([t] + toks) == (match t case Lit(x) => x case Param(n) => "{" + n + "}") + Render(toks)
  {
    assert ([t] + toks)[1..] == toks;
  }

  /** A character pushed in front of a token list is rendered in front of its text. */
  lemma RenderPushChar(c: char, toks: seq<Token>)
    ensures Render(PushChar(c, toks)) == [c] + Render(toks)
  {
    if |toks| > 0 && toks[0].Lit? {
      RenderCons(toks[0], toks[1..]);
      assert [toks[0]] + toks[1..] == toks;
      RenderCons(Lit([c] + toks[0].text), toks[1..]);
    } else {
      RenderCons(Lit([c]), toks);
    }
  }

  /** The placeholder names in order of appearance, repeats included (`preg_match_all`'s group 1). */
  function ParamNames(toks: seq<Token>): seq<string> {
    if toks == [] then []
    else (if toks[0].Param? then [toks[0].name] else []) + ParamNames(toks[1..])
  }

  /** Every placeholder name is non-empty and holds no "}". */
  lemma {:induction false} ParamNamesShape(s: string)
    ensures forall i :: 0 <= i < |ParamNames(Tokenize(s))| ==>
      ParamNames(Tokenize(s))[i] != "" && '}' !in ParamNames(Tokenize(s))[i]
    decreases |s|
  {
    if s != [] {
      match Placeholder(s)
      case Some(j) =>
        ParamNamesShape(s[j + 1..]);
        var toks := [Param(s[1..j])] + Tokenize(s[j + 1..]);
        assert toks[1..] == Tokenize(s[j + 1..]);
        assert ParamNames(toks) == [s[1..j]] + ParamNames(Tokenize(s[j + 1..]));
      case None =>
        ParamNamesShape(s[1..]);
        var rest := Tokenize(s[1..]);
        assert ParamNames(PushChar(s[0], rest)) == ParamNames(rest) by {
          if |rest| > 0 && rest[0].Lit? {
            assert PushChar(s[0], rest)[1..] == rest[1..];
            assert ParamNames(rest) == ParamNames(rest[1..]);
          } else {
            assert PushChar(s[0], rest)[1..] == rest;
          }
        }
    }
  }

  // ---------------------------------------------------------------- matching

  /**
   * The matching rule: literal text must occur exactly, each placeholder
   * takes one or more characters none of which is "/", and the whole URI
   * must be consumed.
   */
  ghost predicate Matches(toks: seq<Token>, s: string)
    decreases |toks|
  {
    if toks == [] then s == []
    else match toks[0]
      case Lit(t) => StartsWith(s, t) && Matches(toks[1..], s[|t|..])
      case Param(_) => exists k :: 1 <= k <= |s| && '/' !in s[..k] && Matches(toks[1..], s[k..])
  }

  /** Captured values are non-empty and slash-free. */
  predicate ValidCaptures(vs: seq<string>) {
    forall i :: 0 <= i < |vs| ==> vs[i] != "" && '/' !in vs[i]
  }

  /** The URI obtained by writing the values in place of the placeholders. */
  function Fill(toks: seq<Token>, vals: seq<string>): string
    requires |vals| == |ParamNames(toks)|
  {
    if toks == [] then []
    else match toks[0]
      case Lit(t) => t + Fill(toks[1..], vals)
      case Param(_) => vals[0] + Fill(toks[1..], vals[1..])
  }

  /** Length of the slash-free run that starts `s`: the most a placeholder can take. */
  function SlashRun(s: string): (n: nat)
    ensures n <= |s| && '/' !in s[..n]
    ensures n < |s| ==> s[n] == '/'
  {
    |BeforeFirst(s, '/')|
  }

  /**
   * The capture groups of the anchored match, or None when the URI does not
   * match. The values fill the placeholders back into exactly the URI.
   */
  function Capture(toks: seq<Token>, s: string): (r: Option<seq<string>>)
    ensures r.Some? ==> |r.value| == |ParamNames(toks)| && ValidCaptures(r.value)
    ensures r.Some? ==> Fill(toks, r.value) == s
    decreases |toks|, |s| + 1
  {
    if toks == [] then (if s == [] then Some([]) else None)
    else match toks[0]
      case Lit(t) =>
        if StartsWith(s, t) then
          var r := Capture(toks[1..], s[|t|..]);
          assert r.Some? ==> Fill(toks, r.value) == t + s[|t|..] == s;
          r
        else None
      case Param(_) => Longest(toks, s, SlashRun(s))
  }

  /** The placeholder at the head of `toks` tries lengths `k`, `k - 1`, …, 1 and keeps the first that lets the rest match. */
  function Longest(toks: seq<Token>, s: string, k: nat): (r: Option<seq<string>>)
    requires |toks| > 0 && toks[0].Param?
    requires k <= |s| && '/' !in s[..k]
    ensures r.Some? ==> |r.value| == |ParamNames(toks)| && ValidCaptures(r.value)
    ensures r.Some? ==> Fill(toks, r.value) == s
    decreases |toks|, k
  {
    if k == 0 then None
    else match Capture(toks[1..], s[k..])
      case Some(vs) =>
        var r := [s[..k]] + vs;
        assert r[1..] == vs && r[0] == s[..k];
        assert Fill(toks, r) == s[..k] + s[k..] == s;
        Some(r)
      case None =>
        assert s[..k - 1] == s[..k][..k - 1];
        Longest(toks, s, k - 1)
  }

  /** The greedy capture finds a match exactly when the matching rule admits one. */
  lemma {:induction false} CaptureComplete(toks: seq<Token>, s: string)
    ensures Capture(toks, s).Some? <==> Matches(toks, s)
    decreases |toks|, |s| + 1
  {
    if toks != [] {
      match toks[0]
      case Lit(t) =>
        if StartsWith(s, t) {
          CaptureComplete(toks[1..], s[|t|..]);
        }
      case Param(_) =>
        var run := SlashRun(s);
        LongestComplete(toks, s, run);
        if Matches(toks, s) {
          var k :| 1 <= k <= |s| && '/' !in s[..k] && Matches(toks[1..], s[k..]);
        }
    }
  }

  /** The greedy search for the head placeholder succeeds exactly when some length up to `k` lets the rest match. */
  lemma LongestComplete(toks: seq<Token>, s: string, k: nat)
    requires |toks| > 0 && toks[0].Param?
    requires k <= |s| && '/' !in s[..k]
    ensures Longest(toks, s, k).Some? <==> exists j :: 1 <= j <= k && Matches(toks[1..], s[j..])
    decreases |toks|, k, 1
  {
    LongestSound(toks, s, k);
    if j :| 1 <= j <= k && Matches(toks[1..], s[j..]) {
      LongestFinds(toks, s, k, j);
    }
  }

  /** What the greedy search returns lets the rest of the route match. */
  lemma {:induction false} LongestSound(toks: seq<Token>, s: string, k: nat)
    requires |toks| > 0 && toks[0].Param?
    requires k <= |s| && '/' !in s[..k]
    ensures Longest(toks, s, k).Some? ==> exists j :: 1 <= j <= k && Matches(toks[1..], s[j..])
    decreases |toks|, k, 0
  {
    if k > 0 {
      LongestStep(toks, s, k);
      if Capture(toks[1..], s[k..]).Some? {
        CaptureComplete(toks[1..], s[k..]);
        assert Matches(toks[1..], s[k..]);
      } else {
        LongestSound(toks, s, k - 1);
        if Longest(toks, s, k - 1).Some? {
          var j :| 1 <= j <= k - 1 && Matches(toks[1..], s[j..]);
          assert 1 <= j <= k;
        }
      }
    }
  }

  /** A length `j` up to `k` that lets the rest match is never missed by the greedy search. */
  lemma {:induction false} LongestFinds(toks: seq<Token>, s: string, k: nat, j: nat)
    requires |toks| > 0 && toks[0].Param?
    requires k <= |s| && '/' !in s[..k]
    requires 1 <= j <= k && Matches(toks[1..], s[j..])
    ensures Longest(toks, s, k).Some?
    decreases |toks|, k, 0
  {
    LongestStep(toks, s, k);
    if Capture(toks[1..], s[k..]).None? {
      CaptureComplete(toks[1..], s[k..]);
      assert j < k;
      LongestFinds(toks, s, k - 1, j);
    }
  }

  /** One step of the greedy search: length `k` is taken if the rest matches after it, otherwise `k - 1` is tried. */
  lemma LongestStep(toks: seq<Token>, s: string, k: nat)
    requires |toks| > 0 && toks[0].Param?
    requires 0 < k <= |s| && '/' !in s[..k]
    ensures '/' !in s[..k - 1]
    ensures Capture(toks[1..], s[k..]).Some? ==> Longest(toks, s, k).Some?
    ensures Capture(toks[1..], s[k..]).None? ==> Longest(toks, s, k) == Longest(toks, s, k - 1)
  {
    assert s[..k - 1] == s[..k][..k - 1];
  }

  /** `matchRoute($routeUri, $requestUri)`: holds exactly when the matching rule admits the request URI. */
  function MatchRoute(routeUri: string, requestUri: string): (r: bool)
    ensures r <==> Matches(Tokenize(routeUri), requestUri)
  {
    CaptureComplete(Tokenize(routeUri), requestUri);
    Capture(Tokenize(routeUri), requestUri).Some?
  }

  // ---------------------------------------------------------------- extractParameters

  /** Names bound to values left to right; a repeated name keeps its last value. */
  function Bind(names: seq<string>, vals: seq<string>): (r: map<string, string>)
    requires |names| == |vals|
    ensures r.Keys == set i | 0 <= i < |names| :: names[i]
    ensures forall i :: 0 <= i < |names| && names[i] !in names[i + 1..] ==> r[names[i]] == vals[i]
  {
    if names == [] then map[]
    else
      var rest := Bind(names[1..], vals[1..]);
      BindFront(names, vals, rest);
      map[names[0] := vals[0]] + rest
  }

  /** Binding the first name in front of the bindings of the others keeps both properties of `Bind`. */
  lemma BindFront(names: seq<string>, vals: seq<string>, rest: map<string, string>)
    requires |names| == |vals| > 0
    requires rest.Keys == set i | 0 <= i < |names| - 1 :: names[1..][i]
    requires forall i :: 0 <= i < |names| - 1 && names[1..][i] !in names[1..][i + 1..] ==> rest[names[1..][i]] == vals[1..][i]
    ensures var r := map[names[0] := vals[0]] + rest;
      && r.Keys == (set i | 0 <= i < |names| :: names[i])
      && forall i :: 0 <= i < |names| && names[i] !in names[i + 1..] ==> r[names[i]] == vals[i]
  {
    var r := map[names[0] := vals[0]] + rest;
    assert r.Keys == (set i | 0 <= i < |names| :: names[i]) by {
      forall x | x in r.Keys ensures x in (set i | 0 <= i < |names| :: names[i]) {
        if x != names[0] {
          var i :| 0 <= i < |names| - 1 && names[1..][i] == x;
          assert names[i + 1] == x;
        }
      }
      forall i | 0 <= i < |names| ensures names[i] in r.Keys {
        if i > 0 {
          assert names[i] == names[1..][i - 1];
        }
      }
    }
    forall i | 0 <= i < |names| && names[i] !in names[i + 1..]
      ensures r[names[i]] == vals[i]
    {
      if i == 0 {
        assert names[0] !in rest.Keys;
      } else {
        assert names[i] == names[1..][i - 1] && vals[i] == vals[1..][i - 1];
        assert names[i + 1..] == names[1..][i..];
      }
    }
  }

  /**
   * `extractParameters($routeUri, $requestUri)`: the placeholder names
   * bound to the captured values, or the empty map when there is no match.
   */
  function ExtractParameters(routeUri: string, requestUri: string): (r: map<string, string>)
    ensures !MatchRoute(routeUri, requestUri) ==> r == map[]
    ensures var toks := Tokenize(routeUri); var names := ParamNames(toks);
      MatchRoute(routeUri, requestUri) ==>
        && r.Keys == (set i | 0 <= i < |names| :: names[i])
        && (forall i :: 0 <= i < |names| && names[i] !in names[i + 1..] ==>
              r[names[i]] == Capture(toks, requestUri).value[i])
  {
    var toks := Tokenize(routeUri);
    match Capture(toks, requestUri)
    case Some(vals) => Bind(ParamNames(toks), vals)
    case None => map[]
  }

  // ---------------------------------------------------------------- common route shapes

  /** Text without "{" tokenises as one literal, joined to what follows unless that is literal too. */
  lemma {:induction false} TokenizeLiteral(lit: string, x: string)
    requires lit != [] && '{' !in lit
    requires Tokenize(x) == [] || Tokenize(x)[0].Param?
    ensures Tokenize(lit + x) == [Lit(lit)] + Tokenize(x)
    decreases |lit|
  {
    TokenizeNoBrace(lit, x);
    if |lit| == 1 {
      assert lit[1..] + x == x;
      assert [lit[0]] == lit;
    } else {
      TokenizeLiteral(lit[1..], x);
      assert [lit[0]] + lit[1..] == lit;
    }
  }

  /** A first character other than "{" is pushed onto the tokens of the rest. */
  lemma TokenizeNoBrace(lit: string, x: string)
    requires lit != [] && lit[0] != '{'
    ensures Tokenize(lit + x) == PushChar(lit[0], Tokenize(lit[1..] + x))
  {
    var s := lit + x;
    assert s[0] == lit[0] && s[1..] == lit[1..] + x;
  }

  /** `{name}` alone is one placeholder. */
  lemma PlaceholderAlone(name: string)
    requires name != [] && '}' !in name
    ensures Tokenize("{" + name + "}") == [Param(name)]
  {
    var s := "{" + name + "}";
    var j := |name| + 1;
    assert s[j] == '}' && s[..j] == "{" + name;
    assert '}' !in s[..j];
    assert Placeholder(s) == Some(j);
    assert s[1..j] == name && s[j + 1..] == [];
  }

  /** A route URI without placeholders matches exactly its own text, and binds nothing. */
  lemma {:induction false} LiteralRoute(lit: string, u: string)
    requires '{' !in lit
    ensures MatchRoute(lit, u) <==> u == lit
    ensures ExtractParameters(lit, u) == map[]
  {
    if lit == [] {
      assert Tokenize(lit) == [];
    } else {
      TokenizeLiteral(lit, []);
      assert lit + [] == lit;
      var toks := Tokenize(lit);
      assert toks == [Lit(lit)];
      if StartsWith(u, lit) {
        assert Capture(toks[1..], u[|lit|..]).Some? <==> u[|lit|..] == [];
        assert u == lit + u[|lit|..];
      }
      assert ParamNames(toks) == [];
    }
  }

  /**
   * A route URI made of literal text and one final `{name}` matches the URIs
   * that start with that text and go on with one non-empty slash-free
   * segment, and binds `name` to that segment ("/usuario/{id}" against
   * "/usuario/123" gives id = "123").
   */
  lemma SingleParameterRoute(lit: string, name: string, u: string)
    requires lit != [] && '{' !in lit
    requires name != [] && '}' !in name
    ensures MatchRoute(lit + "{" + name + "}", u) <==> StartsWith(u, lit) && |u| > |lit| && '/' !in u[|lit|..]
    ensures MatchRoute(lit + "{" + name + "}", u) ==> ExtractParameters(lit + "{" + name + "}", u) == map[name := u[|lit|..]]
  {
    var route := lit + "{" + name + "}";
    SingleParameterTokens(lit, name);
    LiteralParamMatches(route, lit, name, u);
    if MatchRoute(route, u) {
      LiteralParamBinds(route, lit, name, u);
    }
  }

  /** A route of one literal then one placeholder matches the literal followed by one segment. */
  lemma LiteralParamMatches(route: string, lit: string, name: string, u: string)
    requires Tokenize(route) == [Lit(lit), Param(name)]
    ensures MatchRoute(route, u) <==> StartsWith(u, lit) && |u| > |lit| && '/' !in u[|lit|..]
  {
    var toks := Tokenize(route);
    assert toks[1..] == [Param(name)];
    if StartsWith(u, lit) {
      ParameterAlone(name, u[|lit|..]);
    }
  }

  /** ... and binds the placeholder's name to that segment. */
  lemma LiteralParamBinds(route: string, lit: string, name: string, u: string)
    requires Tokenize(route) == [Lit(lit), Param(name)]
    requires MatchRoute(route, u)
    ensures ExtractParameters(route, u) == map[name := u[|lit|..]]
  {
    var toks := Tokenize(route);
    assert toks[1..] == [Param(name)] && toks[1..][1..] == [];
    assert ParamNames(toks[1..]) == [name] + ParamNames([]);
    var vals := Capture(toks, u).value;
    assert Fill(toks, vals) == lit + (vals[0] + Fill([], vals[1..]));
    assert u[|lit|..] == vals[0];
  }

  /** Literal text followed by one placeholder tokenises as those two tokens. */
  lemma SingleParameterTokens(lit: string, name: string)
    requires lit != [] && '{' !in lit
    requires name != [] && '}' !in name
    ensures Tokenize(lit + "{" + name + "}") == [Lit(lit), Param(name)]
  {
    PlaceholderAlone(name);
    LiteralThenParam(lit, "{" + name + "}", name);
    PlaceholderAfter(lit, name);
  }

  lemma PlaceholderAfter(lit: string, name: string)
    ensures lit + "{" + name + "}" == lit + ("{" + name + "}")
  {
  }

  lemma LiteralThenParam(lit: string, p: string, name: string)
    requires lit != [] && '{' !in lit
    requires Tokenize(p) == [Param(name)]
    ensures Tokenize(lit + p) == [Lit(lit), Param(name)]
  {
    TokenizeLiteral(lit, p);
    assert [Lit(lit)] + [Param(name)] == [Lit(lit), Param(name)];
  }

  /** A lone placeholder matches exactly the non-empty slash-free strings. */
  lemma ParameterAlone(name: string, v: string)
    ensures Matches([Param(name)], v) <==> |v| > 0 && '/' !in v
  {
    var toks := [Param(name)];
    assert toks[1..] == [];
    if |v| > 0 && '/' !in v {
      assert v[..|v|] == v && v[|v|..] == [];
      assert Matches([], v[|v|..]);
    }
    if Matches(toks, v) {
      var k :| 1 <= k <= |v| && '/' !in v[..k] && Matches([], v[k..]);
      assert k == |v| && v[..k] == v;
    }
  }
}
