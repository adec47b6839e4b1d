/**
 * The PHP string built-ins the framework relies on, over `seq<char>`:
 * ASCII `strtolower`/`strtoupper`, `trim`/`ltrim` with a character list,
 * `strpos` as a prefix or substring test, and `empty()` on a string.
 */
module Text {
  import opened Wrappers

  /** The characters PHP's `trim` strips when no list is given. */
  const TrimSpace: set<char> := {' ', '\t', '\n', '\r', '\U{0}', '\U{B}'}

  predicate IsUpper(c: char) { 'A' <= c <= 'Z' }
  predicate IsLower(c: char) { 'a' <= c <= 'z' }
  predicate IsDigit(c: char) { '0' <= c <= '9' }

  function LowerChar(c: char): char {
    if IsUpper(c) then (c as int + 32) as char else c
  }

  function UpperChar(c: char): char {
    if IsLower(c) then (c as int - 32) as char else c
  }

  /** `strtolower`: ASCII only, every other character is kept. */
  function ToLower(s: string): (r: string)
    ensures |r| == |s|
    ensures forall i :: 0 <= i < |s| ==> r[i] == LowerChar(s[i])
  {
    seq(|s|, i requires 0 <= i < |s| => LowerChar(s[i]))
  }

  /** `strtoupper`: ASCII only, every other character is kept. */
  function ToUpper(s: string): (r: string)
    ensures |r| == |s|
    ensures forall i :: 0 <= i < |s| ==> r[i] == UpperChar(s[i])
  {
    seq(|s|, i requires 0 <= i < |s| => UpperChar(s[i]))
  }

  /** Upper-casing twice is upper-casing once. */
  lemma ToUpperIdempotent(s: string)
    ensures ToUpper(ToUpper(s)) == ToUpper(s)
  {
    var u := ToUpper(s);
    assert forall i :: 0 <= i < |s| ==> !IsLower(u[i]);
  }

  /** A string without lower-case letters is its own upper case. */
  lemma UpperFixed(s: string)
    requires forall i :: 0 <= i < |s| ==> !IsLower(s[i])
    ensures ToUpper(s) == s
  {
  }

  /** Two strings with the same upper-case form have the same lower-case form. */
  lemma SameUpperSameLower(s: string, t: string)
    requires ToUpper(s) == ToUpper(t)
    ensures ToLower(s) == ToLower(t)
  {
    assert |s| == |t|;
    forall i | 0 <= i < |s| ensures LowerChar(s[i]) == LowerChar(t[i]) {
      assert UpperChar(s[i]) == ToUpper(s)[i] == ToUpper(t)[i] == UpperChar(t[i]);
    }
  }

  /** Lower-casing works part by part. */
  lemma ToLowerAppend(a: string, b: string)
    ensures ToLower(a + b) == ToLower(a) + ToLower(b)
  {
    assert forall i :: 0 <= i < |a| + |b| ==> (a + b)[i] == if i < |a| then a[i] else b[i - |a|];
  }

  /** Upper-casing ignores a previous lower-casing. */
  lemma UpperOfLower(s: string)
    ensures ToUpper(ToLower(s)) == ToUpper(s)
  {
    assert forall i :: 0 <= i < |s| ==> UpperChar(LowerChar(s[i])) == UpperChar(s[i]);
  }

  /** `ltrim($s, $chars)`: drops the longest prefix made of characters in `cs`. */
  function TrimLeft(s: string, cs: set<char>): (r: string)
    ensures |r| <= |s| && r == s[|s| - |r|..]
    ensures r == [] || r[0] !in cs
    ensures forall i :: 0 <= i < |s| - |r| ==> s[i] in cs
  {
    if |s| > 0 && s[0] in cs then TrimLeft(s[1..], cs) else s
  }

  /** `rtrim($s, $chars)`: drops the longest suffix made of characters in `cs`. */
  function TrimRight(s: string, cs: set<char>): (r: string)
    ensures |r| <= |s| && r == s[..|r|]
    ensures r == [] || r[|r| - 1] !in cs
    ensures forall i :: |r| <= i < |s| ==> s[i] in cs
  {
    if |s| > 0 && s[|s| - 1] in cs then TrimRight(s[..|s| - 1], cs) else s
  }

  /** `trim($s, $chars)`: both ends. */
  function Trim(s: string, cs: set<char>): string {
    TrimRight(TrimLeft(s, cs), cs)
  }

  /** A leading character from the list is the first thing trimmed. */
  lemma TrimLeftFirst(s: string, cs: set<char>)
    requires s != [] && s[0] in cs
    ensures TrimLeft(s, cs) == TrimLeft(s[1..], cs)
  {
  }

  /** A leading run of listed characters in front of a kept character is trimmed away exactly. */
  lemma {:induction false} TrimLeftRun(run: string, b: string, cs: set<char>)
    requires forall i :: 0 <= i < |run| ==> run[i] in cs
    requires b == [] || b[0] !in cs
    ensures TrimLeft(run + b, cs) == b
    decreases |run|
  {
    if run == [] {
      assert run + b == b;
    } else {
      assert (run + b)[1..] == run[1..] + b;
      TrimLeftRun(run[1..], b, cs);
    }
  }

  /** When `x` ends with a kept character, trimming `x + y` only trims `x`. */
  lemma {:induction false} TrimLeftAppend(x: string, y: string, cs: set<char>)
    requires x != [] && x[|x| - 1] !in cs
    ensures TrimLeft(x + y, cs) == TrimLeft(x, cs) + y
    decreases |x|
  {
    if x[0] in cs {
      assert |x| > 1;
      assert (x + y)[1..] == x[1..] + y;
      TrimLeftAppend(x[1..], y, cs);
    }
  }

  /** Trimming a string whose two ends are kept changes nothing. */
  lemma TrimNoop(s: string, cs: set<char>)
    requires s != [] && s[0] !in cs && s[|s| - 1] !in cs
    ensures Trim(s, cs) == s
  {
    assert TrimLeft(s, cs) == s;
  }

  /** A string trims to nothing exactly when every character is in the list. */
  lemma TrimEmptyIff(s: string, cs: set<char>)
    ensures Trim(s, cs) == [] <==> forall i :: 0 <= i < |s| ==> s[i] in cs
  {
    var l := TrimLeft(s, cs);
    if l != [] {
      assert l[0] !in cs;
    }
  }

  /** `strpos($s, $p) === 0`. */
  predicate StartsWith(s: string, p: string) {
    |p| <= |s| && s[..|p|] == p
  }

  /** `strpos($s, $sub) !== false`. */
  predicate Contains(s: string, sub: string)
    decreases |s|
  {
    StartsWith(s, sub) || (|s| > 0 && Contains(s[1..], sub))
  }

  /** `sub` occurs in `s` starting at index `i`. */
  predicate OccursAt(s: string, sub: string, i: int) {
    0 <= i <= |s| - |sub| && s[i..i + |sub|] == sub
  }

  /** `Contains` is the existence of a position where `sub` occurs. */
  lemma {:induction false} ContainsIff(s: string, sub: string)
    ensures Contains(s, sub) <==> exists i :: OccursAt(s, sub, i)
    decreases |s|
  {
    if StartsWith(s, sub) {
      assert OccursAt(s, sub, 0);
    } else if |s| > 0 {
      ContainsIff(s[1..], sub);
      if exists i :: OccursAt(s, sub, i) {
        var i :| OccursAt(s, sub, i);
        if i > 0 {
          assert OccursAt(s[1..], sub, i - 1);
        }
      }
      if Contains(s[1..], sub) {
        var i :| OccursAt(s[1..], sub, i);
        assert OccursAt(s, sub, i + 1);
      }
    }
  }

  /** `strpos($s, $c)` for one character: the first index holding `c`. */
  function IndexOf(s: string, c: char): (r: Option<nat>)
    ensures r.Some? ==> r.value < |s| && s[r.value] == c && c !in s[..r.value]
    ensures r.None? ==> c !in s
  {
    if |s| == 0 then None
    else if s[0] == c then Some(0)
    else match IndexOf(s[1..], c)
      case Some(j) => Some(j + 1)
      case None => None
  }

  /** The text before the first `c`, or all of `s` when there is none. */
  function BeforeFirst(s: string, c: char): (r: string)
    ensures StartsWith(s, r) && c !in r
    ensures |r| < |s| ==> s[|r|] == c
  {
    match IndexOf(s, c)
    case Some(j) => s[..j]
    case None => s
  }

  /** `s` with every character of `cs` removed. */
  function Without(s: string, cs: set<char>): (r: string)
    ensures forall i :: 0 <= i < |r| ==> r[i] !in cs
  {
    if s == [] then []
    else if s[0] in cs then Without(s[1..], cs)
    else [s[0]] + Without(s[1..], cs)
  }

  lemma {:induction false} WithoutAppend(a: string, b: string, cs: set<char>)
    ensures Without(a + b, cs) == Without(a, cs) + Without(b, cs)
    decreases |a|
  {
    if a != [] {
      var ab := a + b;
      assert ab != [] && ab[0] == a[0] && ab[1..] == a[1..] + b;
      WithoutAppend(a[1..], b, cs);
      if a[0] in cs {
        assert Without(ab, cs) == Without(a[1..] + b, cs);
      } else {
        assert Without(ab, cs) == [a[0]] + Without(a[1..] + b, cs);
        assert Without(a, cs) == [a[0]] + Without(a[1..], cs);
      }
    } else {
      assert a + b == b;
    }
  }

  lemma {:induction false} TrimKeepsWithout(s: string, sep: char)
    ensures Without(Trim(s, {sep}), {sep}) == Without(s, {sep})
  {
    TrimLeftKeeps(s, sep);
    TrimRightKeeps(TrimLeft(s, {sep}), sep);
  }

  lemma {:induction false} TrimLeftKeeps(s: string, sep: char)
    ensures Without(TrimLeft(s, {sep}), {sep}) == Without(s, {sep})
    decreases |s|
  {
    if s != [] && s[0] == sep {
      TrimLeftKeeps(s[1..], sep);
    }
  }

  lemma {:induction false} TrimRightKeeps(s: string, sep: char)
    ensures Without(TrimRight(s, {sep}), {sep}) == Without(s, {sep})
    decreases |s|
  {
    if s != [] && s[|s| - 1] == sep {
      var init := s[..|s| - 1];
      TrimRightKeeps(init, sep);
      assert s == init + [sep];
      WithoutAppend(init, [sep], {sep});
    }
  }

  /** PHP's `empty()` (and the falsiness of `if ($s)`) on a string: "" and "0". */
  predicate EmptyString(s: string) {
    s == "" || s == "0"
  }

  /** No two copies of `c` stand next to each other in `s`. */
  predicate NoRepeat(s: string, c: char) {
    forall i :: 0 <= i < |s| - 1 ==> !(s[i] == c && s[i + 1] == c)
  }

  lemma SliceNoRepeat(s: string, c: char, a: nat, b: nat)
    requires a <= b <= |s| && NoRepeat(s, c)
    ensures NoRepeat(s[a..b], c)
  {
    assert forall i :: 0 <= i < b - a ==> s[a..b][i] == s[a + i];
  }

  /** Trimming only cuts off the two ends, so it creates no repeated pair. */
  lemma TrimKeepsNoRepeat(s: string, cs: set<char>, c: char)
    requires NoRepeat(s, c)
    ensures NoRepeat(Trim(s, cs), c)
  {
    var l := TrimLeft(s, cs);
    SliceNoRepeat(s, c, |s| - |l|, |s|);
    SliceNoRepeat(l, c, 0, |TrimRight(l, cs)|);
  }

  /** A trimmed string is empty or begins and ends outside the list. */
  lemma TrimEnds(s: string, cs: set<char>)
    ensures var t := Trim(s, cs); t == [] || (t[0] !in cs && t[|t| - 1] !in cs)
  {
    var l := TrimLeft(s, cs);
    var t := TrimRight(l, cs);
    if t != [] {
      assert t[0] == l[0];
    }
  }

  /** A character in front keeps `NoRepeat` unless it doubles a leading `c`. */
  lemma NoRepeatCons(x: char, t: string, c: char)
    requires NoRepeat(t, c)
    requires x != c || t == [] || t[0] != c
    ensures NoRepeat([x] + t, c)
  {
    var s := [x] + t;
    assert forall i :: 0 < i < |s| ==> s[i] == t[i - 1];
  }
}
