/**
 * The global helper functions of the framework: `blank`/`filled` over PHP
 * values, `str_slug`, the keyword conversion of `env`, and URL assembly
 * (`url`, `asset`, `route`, `config`). Superglobals are parameters.
 */
module Helpers {
  import opened Wrappers
  import opened Text

  /** A PHP value as these helpers distinguish it. Floats are not modelled. */
  datatype Value =
    | Null
    | Bool(b: bool)
    | Int(i: int)
    | Str(s: string)
    | Arr(entries: map<string, Value>)

  // ---------------------------------------------------------------- blank / filled

  /**
   * `blank`: null, a string that trims to "", an empty array, or a value `empty()` calls empty.
   * A string is blank exactly when it is made only of `trim`'s default characters.
   */
  function Blank(v: Value): (r: bool)
    ensures r <==> match v
                   case Null => true
                   case Str(s) => forall i :: 0 <= i < |s| ==> s[i] in TrimSpace
                   case Arr(m) => |m| == 0
                   case Int(i) => i == 0
                   case Bool(b) => !b
  {
    match v
    case Null => true
    case Str(s) => TrimEmptyIff(s, TrimSpace); Trim(s, TrimSpace) == ""
    case Arr(m) => |m| == 0
    case Int(i) => i == 0
    case Bool(b) => !b
  }

  /** `filled`: the negation of `blank`, characterised without trimming. */
  function Filled(v: Value): (r: bool)
    ensures r <==> match v
                   case Null => false
                   case Str(s) => exists i :: 0 <= i < |s| && s[i] !in TrimSpace
                   case Arr(m) => |m| > 0
                   case Int(i) => i != 0
                   case Bool(b) => b
  {
    !Blank(v)
  }

  /** The asymmetry the framework keeps: the string "0" has content, the integer 0 does not. */
  lemma ZeroAsymmetry()
    ensures !Blank(Str("0"))
    ensures Blank(Int(0)) && !Blank(Int(-1))
    ensures Blank(Str(""))
  {
    assert Blank(Int(0)) && !Blank(Int(-1));
    assert Blank(Str(""));
    HasContent("0", 0);
  }

  /** A string with one character outside `trim`'s set is not blank. */
  lemma HasContent(s: string, i: nat)
    requires i < |s| && s[i] !in TrimSpace
    ensures !Blank(Str(s))
  {
  }

  // ---------------------------------------------------------------- str_slug

  /** The characters PCRE's `\s` matches outside UTF mode. */
  const RegexSpace: set<char> := {' ', '\t', '\n', '\U{B}', '\U{C}', '\r'}

  /** The accented letters `str_slug` folds, each taken as one character. */
  function FoldAccent(c: char): char {
    if c == 'á' then 'a'
    else if c == 'é' then 'e'
    else if c == 'í' then 'i'
    else if c == 'ó' then 'o'
    else if c == 'ú' then 'u'
    else if c == 'ñ' then 'n'
    else if c == 'ü' then 'u'
    else c
  }

  function FoldAccents(s: string): (r: string)
    ensures |r| == |s|
    ensures forall i :: 0 <= i < |s| ==> r[i] == FoldAccent(s[i])
  {
    seq(|s|, i requires 0 <= i < |s| => FoldAccent(s[i]))
  }

  /** Survives `preg_replace('/[^a-z0-9\s]/', '', …)`. */
  predicate SlugKeeps(c: char) {
    IsLower(c) || IsDigit(c) || c in RegexSpace
  }

  /** Removes every character that is not a lower-case letter, a digit or `\s`. */
  function KeepSlugChars(s: string): (r: string)
    ensures forall i :: 0 <= i < |r| ==> SlugKeeps(r[i])
  {
    if s == [] then []
    else if SlugKeeps(s[0]) then [s[0]] + KeepSlugChars(s[1..])
    else KeepSlugChars(s[1..])
  }

  /** The filter works character by character: a kept character stays, any other goes. */
  lemma KeepSlugCharsOne(c: char)
    ensures KeepSlugChars([c]) == if SlugKeeps(c) then [c] else []
  {
    assert [c][1..] == [];
  }

  /** Filtering a concatenation filters each part and keeps them in order. */
  lemma {:induction false} KeepSlugCharsAppend(a: string, b: string)
    ensures KeepSlugChars(a + b) == KeepSlugChars(a) + KeepSlugChars(b)
    decreases |a|
  {
    if a == [] {
      assert a + b == b;
    } else {
      assert (a + b)[0] == a[0] && (a + b)[1..] == a[1..] + b;
      KeepSlugCharsAppend(a[1..], b);
    }
  }

  /** `preg_replace('/\s+/', $sep, …)`: every maximal run of `\s` becomes one `sep`. */
  function CollapseSpaces(s: string, sep: char): (r: string)
    ensures |r| <= |s|
    ensures forall i :: 0 <= i < |r| ==> r[i] == sep || r[i] !in RegexSpace
    decreases |s|
  {
    if s == [] then []
    else if s[0] in RegexSpace then
      var t := CollapseSpaces(TrimLeft(s[1..], RegexSpace), sep);
      assert forall i :: 0 < i < 1 + |t| ==> ([sep] + t)[i] == t[i - 1];
      [sep] + t
    else
      var t := CollapseSpaces(s[1..], sep);
      assert forall i :: 0 < i < 1 + |t| ==> ([s[0]] + t)[i] == t[i - 1];
      [s[0]] + t
  }

  /** A run of one or more `\s` in front becomes exactly one separator. */
  lemma CollapseSpacesRun(run: string, b: string, sep: char)
    requires |run| >= 1 && forall i :: 0 <= i < |run| ==> run[i] in RegexSpace
    requires b == [] || b[0] !in RegexSpace
    ensures CollapseSpaces(run + b, sep) == [sep] + CollapseSpaces(b, sep)
  {
    assert (run + b)[1..] == run[1..] + b;
    TrimLeftRun(run[1..], b, RegexSpace);
  }

  /**
   * A run of `\s` between two parts is replaced by exactly one separator,
   * and each part is collapsed on its own: the words on either side are kept apart.
   */
  lemma {:induction false} CollapseSpacesSplit(a: string, run: string, b: string, sep: char)
    requires a == [] || a[|a| - 1] !in RegexSpace
    requires |run| >= 1 && forall i :: 0 <= i < |run| ==> run[i] in RegexSpace
    requires b == [] || b[0] !in RegexSpace
    ensures CollapseSpaces(a + run + b, sep) == CollapseSpaces(a, sep) + [sep] + CollapseSpaces(b, sep)
    decreases |a|
  {
    if a == [] {
      assert a + run + b == run + b;
      CollapseSpacesRun(run, b, sep);
    } else if a[0] in RegexSpace {
      var a', y := TrimLeft(a[1..], RegexSpace), run + b;
      Assoc3(a, run, b);
      SpaceStep(a, y, sep);
      Assoc3(a', run, b);
      CollapseSpacesSplit(a', run, b, sep);
      SpaceAssocFront([sep], CollapseSpaces(a', sep), CollapseSpaces(b, sep), sep);
    } else {
      var y := run + b;
      Assoc3(a, run, b);
      KeepStep(a, y, sep);
      Assoc3(a[1..], run, b);
      CollapseSpacesSplit(a[1..], run, b, sep);
      SpaceAssocFront([a[0]], CollapseSpaces(a[1..], sep), CollapseSpaces(b, sep), sep);
    }
  }

  /** A leading `\s` of `a` starts the same separator in `a` and in `a + y`. */
  lemma SpaceStep(a: string, y: string, sep: char)
    requires a != [] && a[0] in RegexSpace && a[|a| - 1] !in RegexSpace
    ensures var a' := TrimLeft(a[1..], RegexSpace);
      && |a'| < |a| && a' != [] && a'[|a'| - 1] !in RegexSpace
      && CollapseSpaces(a + y, sep) == [sep] + CollapseSpaces(a' + y, sep)
      && CollapseSpaces(a, sep) == [sep] + CollapseSpaces(a', sep)
  {
    SplitSpaceHead(a, y);
    CollapseSpacesHead(a + y, sep);
    CollapseSpacesHead(a, sep);
  }

  /** A leading character outside `\s` is kept in front of `a` and of `a + y`. */
  lemma KeepStep(a: string, y: string, sep: char)
    requires a != [] && a[0] !in RegexSpace
    ensures CollapseSpaces(a + y, sep) == [a[0]] + CollapseSpaces(a[1..] + y, sep)
    ensures CollapseSpaces(a, sep) == [a[0]] + CollapseSpaces(a[1..], sep)
  {
    assert (a + y)[0] == a[0] && (a + y)[1..] == a[1..] + y;
    CollapseSpacesHead(a + y, sep);
    CollapseSpacesHead(a, sep);
  }

  /** One step of the collapse: a leading `\s` run becomes the separator, any other character is kept. */
  lemma CollapseSpacesHead(s: string, sep: char)
    requires s != []
    ensures CollapseSpaces(s, sep) == if s[0] in RegexSpace
      then [sep] + CollapseSpaces(TrimLeft(s[1..], RegexSpace), sep)
      else [s[0]] + CollapseSpaces(s[1..], sep)
  {
  }

  /** Behind a leading `\s` of `a`, trimming `a + y` stops inside `a`. */
  lemma SplitSpaceHead(a: string, y: string)
    requires a != [] && a[0] in RegexSpace && a[|a| - 1] !in RegexSpace
    ensures (a + y)[0] == a[0]
    ensures |TrimLeft(a[1..], RegexSpace)| < |a|
    ensures var a' := TrimLeft(a[1..], RegexSpace); a' != [] && a'[|a'| - 1] !in RegexSpace
    ensures TrimLeft((a + y)[1..], RegexSpace) == TrimLeft(a[1..], RegexSpace) + y
  {
    assert (a + y)[1..] == a[1..] + y;
    TrimLeftAppend(a[1..], y, RegexSpace);
  }

  lemma Assoc3(x: string, y: string, z: string)
    ensures x + y + z == x + (y + z)
  {
  }

  lemma SpaceAssocFront(x: string, y: string, z: string, sep: char)
    ensures x + (y + [sep] + z) == x + y + [sep] + z
  {
  }

  /** Text with no `\s` is left as it is. */
  lemma {:induction false} CollapseSpacesNoSpace(s: string, sep: char)
    requires forall i :: 0 <= i < |s| ==> s[i] !in RegexSpace
    ensures CollapseSpaces(s, sep) == s
    decreases |s|
  {
    if s != [] {
      CollapseSpacesNoSpace(s[1..], sep);
      assert s == [s[0]] + s[1..];
    }
  }

  /** What `str_slug` keeps before handling spaces: lower-cased, accents folded, other characters dropped. */
  function SlugText(s: string): string {
    KeepSlugChars(FoldAccents(ToLower(s)))
  }

  /** `str_slug($string, $separator)` for a one-character separator. */
  function StrSlug(s: string, sep: char): (r: string)
    ensures r == [] || (r[0] != sep && r[|r| - 1] != sep)
  {
    var c := CollapseSpaces(SlugText(s), sep);
    TrimEnds(c, {sep});
    Trim(c, {sep})
  }

  /** A character a slug may hold. */
  predicate SlugChar(c: char, sep: char) {
    IsLower(c) || IsDigit(c) || c == sep
  }

  predicate AllSlugChars(s: string, sep: char) {
    forall i :: 0 <= i < |s| ==> SlugChar(s[i], sep)
  }

  lemma SliceSlugChars(s: string, sep: char, a: nat, b: nat)
    requires a <= b <= |s| && AllSlugChars(s, sep)
    ensures AllSlugChars(s[a..b], sep)
  {
    assert forall i :: 0 <= i < b - a ==> s[a..b][i] == s[a + i];
  }

  lemma {:induction false} CollapseAlphabet(s: string, sep: char)
    requires forall i :: 0 <= i < |s| ==> SlugKeeps(s[i])
    ensures AllSlugChars(CollapseSpaces(s, sep), sep)
    decreases |s|
  {
    if s != [] {
      if s[0] in RegexSpace {
        var t := TrimLeft(s[1..], RegexSpace);
        assert forall i :: 0 <= i < |t| ==> t[i] == s[1 + |s[1..]| - |t| + i];
        CollapseAlphabet(t, sep);
        var r := CollapseSpaces(t, sep);
        assert forall i :: 0 < i < 1 + |r| ==> ([sep] + r)[i] == r[i - 1];
      } else {
        CollapseAlphabet(s[1..], sep);
        var r := CollapseSpaces(s[1..], sep);
        assert forall i :: 0 < i < 1 + |r| ==> ([s[0]] + r)[i] == r[i - 1];
      }
    }
  }

  /** Every slug character is a lower-case ASCII letter, a digit or the separator, and the slug never starts or ends with the separator. */
  lemma SlugAlphabet(s: string, sep: char)
    ensures AllSlugChars(StrSlug(s, sep), sep)
    ensures var r := StrSlug(s, sep); r != [] ==> r[0] != sep && r[|r| - 1] != sep
  {
    var c := CollapseSpaces(SlugText(s), sep);
    CollapseAlphabet(SlugText(s), sep);
    var l := TrimLeft(c, {sep});
    SliceSlugChars(c, sep, |c| - |l|, |c|);
    var r := TrimRight(l, {sep});
    SliceSlugChars(l, sep, 0, |r|);
  }

  /** No two separators are adjacent in the collapsed text, which begins with no separator unless `s` begins with `\s`. */
  lemma {:induction false} CollapseNoDoubles(s: string, sep: char)
    requires !SlugKeeps(sep)
    requires forall i :: 0 <= i < |s| ==> SlugKeeps(s[i])
    ensures var r := CollapseSpaces(s, sep);
      && NoRepeat(r, sep)
      && (r != [] && r[0] == sep ==> s[0] in RegexSpace)
    decreases |s|
  {
    if s != [] {
      if s[0] in RegexSpace {
        var t := TrimLeft(s[1..], RegexSpace);
        assert forall i :: 0 <= i < |t| ==> t[i] == s[1 + |s[1..]| - |t| + i];
        CollapseNoDoubles(t, sep);
        NoRepeatCons(sep, CollapseSpaces(t, sep), sep);
      } else {
        CollapseNoDoubles(s[1..], sep);
        NoRepeatCons(s[0], CollapseSpaces(s[1..], sep), sep);
      }
    }
  }

  /** With a separator that is not a letter, digit or space, a slug never holds two separators in a row. */
  lemma NoDoubleSeparator(s: string, sep: char)
    requires !SlugKeeps(sep)
    ensures NoRepeat(StrSlug(s, sep), sep)
  {
    var c := CollapseSpaces(SlugText(s), sep);
    CollapseNoDoubles(SlugText(s), sep);
    TrimKeepsNoRepeat(c, {sep}, sep);
  }

  lemma {:induction false} CollapseKeepsWords(s: string, sep: char)
    requires sep !in s && sep !in RegexSpace
    ensures Without(CollapseSpaces(s, sep), {sep}) == Without(s, RegexSpace)
    decreases |s|
  {
    if s != [] {
      if s[0] in RegexSpace {
        var t := TrimLeft(s[1..], RegexSpace);
        CollapseKeepsWords(t, sep);
        DropLeadingSpaces(s[1..]);
      } else {
        CollapseKeepsWords(s[1..], sep);
      }
    }
  }

  lemma {:induction false} DropLeadingSpaces(s: string)
    ensures Without(TrimLeft(s, RegexSpace), RegexSpace) == Without(s, RegexSpace)
    decreases |s|
  {
    if s != [] && s[0] in RegexSpace {
      DropLeadingSpaces(s[1..]);
    }
  }

  /**
   * Dropping the separators from a slug gives back, in order, exactly the
   * letters and digits that survived lower-casing, accent folding and filtering.
   */
  lemma SlugKeepsWords(s: string, sep: char)
    requires !SlugKeeps(sep)
    ensures Without(StrSlug(s, sep), {sep}) == Without(SlugText(s), RegexSpace)
  {
    var k := SlugText(s);
    assert forall i :: 0 <= i < |k| ==> k[i] != sep;
    CollapseKeepsWords(k, sep);
    TrimKeepsWithout(CollapseSpaces(k, sep), sep);
  }

  /** An ASCII letter of either case or a digit. */
  predicate AlnumChar(c: char) {
    IsLower(c) || IsUpper(c) || IsDigit(c)
  }

  /** Filtered text with a letter or digit at both ends: it holds a word and nothing to trim. */
  predicate Worded(k: string) {
    k != [] && k[0] !in RegexSpace && k[|k| - 1] !in RegexSpace
  }

  /** The collapse keeps the last character when it is not `\s`. */
  lemma {:induction false} CollapseSpacesLast(s: string, sep: char)
    requires s != [] && s[|s| - 1] !in RegexSpace
    ensures var c := CollapseSpaces(s, sep); c != [] && c[|c| - 1] == s[|s| - 1]
    decreases |s|
  {
    CollapseSpacesHead(s, sep);
    if s[0] in RegexSpace {
      var t := TrimLeft(s[1..], RegexSpace);
      assert t != [] && t[|t| - 1] == s[|s| - 1];
      CollapseSpacesLast(t, sep);
    } else if |s| > 1 {
      CollapseSpacesLast(s[1..], sep);
    }
  }

  lemma {:induction false} KeepSlugCharsAll(s: string)
    requires forall i :: 0 <= i < |s| ==> SlugKeeps(s[i])
    ensures KeepSlugChars(s) == s
    decreases |s|
  {
    if s != [] {
      KeepSlugCharsAll(s[1..]);
      assert s == [s[0]] + s[1..];
    }
  }

  lemma FoldAccentsAppend(a: string, b: string)
    ensures FoldAccents(a + b) == FoldAccents(a) + FoldAccents(b)
  {
    assert forall i :: 0 <= i < |a| + |b| ==> (a + b)[i] == if i < |a| then a[i] else b[i - |a|];
  }

  /** The slug text of a concatenation is the slug texts of the parts, in order. */
  lemma SlugTextAppend(a: string, b: string)
    ensures SlugText(a + b) == SlugText(a) + SlugText(b)
  {
    ToLowerAppend(a, b);
    FoldAccentsAppend(ToLower(a), ToLower(b));
    KeepSlugCharsAppend(FoldAccents(ToLower(a)), FoldAccents(ToLower(b)));
  }

  /** A run of `\s` passes lower-casing, folding and filtering unchanged. */
  lemma SlugTextRun(run: string)
    requires forall i :: 0 <= i < |run| ==> run[i] in RegexSpace
    ensures SlugText(run) == run
  {
    var f := FoldAccents(ToLower(run));
    assert forall i :: 0 <= i < |run| ==> f[i] == run[i];
    assert f == run;
    KeepSlugCharsAll(run);
  }

  /** Collapsing text with a word at both ends, neither of them the separator, leaves nothing to trim. */
  lemma TrimCollapsed(l: string, sep: char)
    requires Worded(l) && l[0] != sep && l[|l| - 1] != sep
    ensures Trim(CollapseSpaces(l, sep), {sep}) == CollapseSpaces(l, sep)
  {
    var c := CollapseSpaces(l, sep);
    CollapseSpacesHead(l, sep);
    CollapseSpacesLast(l, sep);
    TrimNoop(c, {sep});
  }

  /** The ends of filtered text are letters or digits, so never a separator outside that alphabet. */
  lemma SlugEnds(s: string, sep: char)
    requires Worded(SlugText(s)) && !SlugKeeps(sep)
    ensures var k := SlugText(s); k[0] != sep && k[|k| - 1] != sep
  {
  }

  /** When the slug text has a word at both ends, the slug is that text with each `\s` run collapsed. */
  lemma SlugOfWorded(s: string, sep: char)
    requires Worded(SlugText(s)) && !SlugKeeps(sep)
    ensures StrSlug(s, sep) == CollapseSpaces(SlugText(s), sep)
  {
    SlugEnds(s, sep);
    TrimCollapsed(SlugText(s), sep);
  }

  /**
   * Two texts joined by one run of `\s`, however long, slug to their own
   * slugs joined by exactly one separator, provided each keeps a word at both ends.
   */
  lemma SlugJoin(a: string, run: string, b: string, sep: char)
    requires Worded(SlugText(a)) && Worded(SlugText(b)) && !SlugKeeps(sep)
    requires |run| >= 1 && forall i :: 0 <= i < |run| ==> run[i] in RegexSpace
    ensures StrSlug(a + run + b, sep) == StrSlug(a, sep) + [sep] + StrSlug(b, sep)
  {
    var ka, kb := SlugText(a), SlugText(b);
    JoinText(a, run, b);
    SlugEnds(a, sep);
    SlugEnds(b, sep);
    CollapsedJoin(ka, run, kb, sep);
    SlugOfWorded(a, sep);
    SlugOfWorded(b, sep);
  }

  /** The filtered form of the join: trimming the collapsed whole gives the collapsed parts around one separator. */
  lemma CollapsedJoin(ka: string, run: string, kb: string, sep: char)
    requires Worded(ka) && Worded(kb)
    requires ka[0] != sep && ka[|ka| - 1] != sep && kb[0] != sep && kb[|kb| - 1] != sep
    requires |run| >= 1 && forall i :: 0 <= i < |run| ==> run[i] in RegexSpace
    ensures Trim(CollapseSpaces(ka + run + kb, sep), {sep}) == CollapseSpaces(ka, sep) + [sep] + CollapseSpaces(kb, sep)
  {
    CollapseSpacesSplit(ka, run, kb, sep);
    JoinWorded(ka, run, kb);
    TrimCollapsed(ka + run + kb, sep);
  }

  lemma JoinText(a: string, run: string, b: string)
    requires forall i :: 0 <= i < |run| ==> run[i] in RegexSpace
    ensures SlugText(a + run + b) == SlugText(a) + run + SlugText(b)
  {
    SlugTextAppend(a + run, b);
    SlugTextAppend(a, run);
    SlugTextRun(run);
  }

  lemma JoinWorded(ka: string, run: string, kb: string)
    requires Worded(ka) && Worded(kb)
    ensures var k := ka + run + kb; Worded(k) && k[0] == ka[0] && k[|k| - 1] == kb[|kb| - 1]
  {
    assert (ka + run + kb)[0] == ka[0];
    assert (ka + run + kb)[|ka + run + kb| - 1] == kb[|kb| - 1];
  }

  /** A word of ASCII letters and digits slugs to itself in lower case. */
  lemma SlugOfWord(w: string, sep: char)
    requires w != [] && !SlugKeeps(sep)
    requires forall i :: 0 <= i < |w| ==> AlnumChar(w[i])
    ensures StrSlug(w, sep) == ToLower(w)
  {
    WordText(w, sep);
    SlugOfWorded(w, sep);
  }

  /** Lower-casing is all the slug text does to a word, and the collapse leaves it alone. */
  lemma WordText(w: string, sep: char)
    requires w != [] && forall i :: 0 <= i < |w| ==> AlnumChar(w[i])
    ensures SlugText(w) == ToLower(w) && Worded(ToLower(w))
    ensures CollapseSpaces(ToLower(w), sep) == ToLower(w)
  {
    var l := ToLower(w);
    assert forall i :: 0 <= i < |l| ==> (IsLower(l[i]) || IsDigit(l[i])) && FoldAccent(l[i]) == l[i];
    assert FoldAccents(l) == l;
    KeepSlugCharsAll(l);
    CollapseSpacesNoSpace(l, sep);
  }

  /** Two words joined by a run of `\s` become the two lower-cased words around one separator. */
  lemma SlugTwoWords(w1: string, run: string, w2: string, sep: char)
    requires w1 != [] && w2 != [] && !SlugKeeps(sep)
    requires forall i :: 0 <= i < |w1| ==> AlnumChar(w1[i])
    requires forall i :: 0 <= i < |w2| ==> AlnumChar(w2[i])
    requires |run| >= 1 && forall i :: 0 <= i < |run| ==> run[i] in RegexSpace
    ensures StrSlug(w1 + run + w2, sep) == ToLower(w1) + [sep] + ToLower(w2)
  {
    SlugOfWord(w1, sep);
    SlugOfWord(w2, sep);
    WordText(w1, sep);
    WordText(w2, sep);
    SlugJoin(w1, run, w2, sep);
  }

  /** Three words joined by runs of `\s`: one separator between each pair, whatever the run lengths. */
  lemma SlugThreeWords(w1: string, r1: string, w2: string, r2: string, w3: string, sep: char)
    requires w1 != [] && w2 != [] && w3 != [] && !SlugKeeps(sep)
    requires forall i :: 0 <= i < |w1| ==> AlnumChar(w1[i])
    requires forall i :: 0 <= i < |w2| ==> AlnumChar(w2[i])
    requires forall i :: 0 <= i < |w3| ==> AlnumChar(w3[i])
    requires |r1| >= 1 && forall i :: 0 <= i < |r1| ==> r1[i] in RegexSpace
    requires |r2| >= 1 && forall i :: 0 <= i < |r2| ==> r2[i] in RegexSpace
    ensures StrSlug(w1 + r1 + w2 + r2 + w3, sep) == ToLower(w1) + [sep] + ToLower(w2) + [sep] + ToLower(w3)
  {
    TwoWordsWorded(w1, r1, w2, sep);
    WordText(w3, sep);
    SlugJoin(w1 + r1 + w2, r2, w3, sep);
    SlugTwoWords(w1, r1, w2, sep);
    SlugOfWord(w3, sep);
  }

  lemma TwoWordsWorded(w1: string, r1: string, w2: string, sep: char)
    requires w1 != [] && w2 != []
    requires forall i :: 0 <= i < |w1| ==> AlnumChar(w1[i])
    requires forall i :: 0 <= i < |w2| ==> AlnumChar(w2[i])
    requires forall i :: 0 <= i < |r1| ==> r1[i] in RegexSpace
    ensures Worded(SlugText(w1 + r1 + w2))
  {
    WordText(w1, sep);
    WordText(w2, sep);
    JoinText(w1, r1, w2);
    JoinWorded(ToLower(w1), r1, ToLower(w2));
  }

  /** `str_slug('Hola Mundo', '_')` is "hola_mundo". */
  lemma SlugHolaMundo()
    ensures StrSlug("Hola Mundo", '_') == "hola_mundo"
  {
    HolaMundoParts();
    HolaMundoWords();
    SlugTwoWords("Hola", " ", "Mundo", '_');
  }

  lemma HolaMundoParts()
    ensures "Hola" + " " + "Mundo" == "Hola Mundo"
    ensures ToLower("Hola") + ['_'] + ToLower("Mundo") == "hola_mundo"
  {
    assert ToLower("Hola") == "hola" && ToLower("Mundo") == "mundo";
  }

  lemma HolaMundoWords()
    ensures !SlugKeeps('_')
    ensures forall i :: 0 <= i < |"Hola"| ==> AlnumChar("Hola"[i])
    ensures forall i :: 0 <= i < |"Mundo"| ==> AlnumChar("Mundo"[i])
    ensures forall i :: 0 <= i < |" "| ==> " "[i] in RegexSpace
  {
  }

  /** `str_slug('Hola    Mundo    Test')` is "hola-mundo-test": long runs still give one separator. */
  lemma SlugHolaMundoTest()
    ensures StrSlug("Hola    Mundo    Test", '-') == "hola-mundo-test"
  {
    HolaMundoTestParts();
    HolaMundoTestWords();
    SlugThreeWords("Hola", "    ", "Mundo", "    ", "Test", '-');
  }

  lemma HolaMundoTestParts()
    ensures "Hola" + "    " + "Mundo" + "    " + "Test" == "Hola    Mundo    Test"
    ensures ToLower("Hola") + ['-'] + ToLower("Mundo") + ['-'] + ToLower("Test") == "hola-mundo-test"
  {
    assert ToLower("Hola") == "hola" && ToLower("Mundo") == "mundo" && ToLower("Test") == "test";
  }

  lemma HolaMundoTestWords()
    ensures !SlugKeeps('-')
    ensures forall i :: 0 <= i < |"Hola"| ==> AlnumChar("Hola"[i])
    ensures forall i :: 0 <= i < |"Mundo"| ==> AlnumChar("Mundo"[i])
    ensures forall i :: 0 <= i < |"Test"| ==> AlnumChar("Test"[i])
    ensures forall i :: 0 <= i < |"    "| ==> "    "[i] in RegexSpace
  {
  }

  // ---------------------------------------------------------------- env

  const TrueWords: set<string> := {"true", "(true)"}
  const FalseWords: set<string> := {"false", "(false)"}
  const NullWords: set<string> := {"null", "(null)"}
  const EmptyWords: set<string> := {"empty", "(empty)"}

  /**
   * `env($key, $default)` once the raw value is looked up: `raw` is None when
   * neither `$_ENV` nor `getenv` has the variable.
   */
  function Env(raw: Option<string>, default: Value): (r: Value)
    ensures raw.None? ==> r == default
    ensures raw.Some? ==> var w := ToLower(raw.value);
      && (w in TrueWords ==> r == Bool(true))
      && (w in FalseWords ==> r == Bool(false))
      && (w in NullWords ==> r == Null)
      && (w in EmptyWords ==> r == Str(""))
      && (w !in TrueWords + FalseWords + NullWords + EmptyWords ==> r == Str(raw.value))
  {
    match raw
    case None => default
    case Some(v) =>
      var w := ToLower(v);
      if w in TrueWords then Bool(true)
      else if w in FalseWords then Bool(false)
      else if w in NullWords then Null
      else if w in EmptyWords then Str("")
      else Str(v)
  }

  /** The conversion ignores ASCII case: an upper-cased raw value converts the same way. */
  lemma EnvIgnoresCase(v: string, default: Value)
    requires ToLower(v) in TrueWords + FalseWords + NullWords + EmptyWords
    ensures Env(Some(ToUpper(v)), default) == Env(Some(v), default)
  {
    ToUpperIdempotent(v);
    SameUpperSameLower(ToUpper(v), v);
  }

  // ---------------------------------------------------------------- url / asset / route / config

  const DefaultHost := "localhost:8080"

  /** `https` iff `$_SERVER['HTTPS']` is non-empty and not "off". */
  function Scheme(https: Option<string>): (r: string)
    ensures r == "https" || r == "http"
    ensures r == "https" <==> https.Some? && https.value !in {"", "0", "off"}
  {
    if https.Some? && !EmptyString(https.value) && https.value != "off" then "https" else "http"
  }

  /** Protocol, `://` and `$_SERVER['HTTP_HOST']`, defaulting to localhost:8080. */
  function BaseUrl(https: Option<string>, host: Option<string>): (r: string)
    ensures StartsWith(r, "https://") <==> Scheme(https) == "https"
  {
    var h := host.GetOr(DefaultHost);
    var r := Scheme(https) + "://" + h;
    assert StartsWith(r, (if Scheme(https) == "https" then "https" else "http") + "://" + h);
    SchemeOf(r, h, Scheme(https) == "https");
    r
  }

  /** The base URL ends with HTTP_HOST, or with localhost:8080 when that is absent. */
  lemma BaseUrlHost(https: Option<string>, host: Option<string>)
    ensures var r, h := BaseUrl(https, host), host.GetOr(DefaultHost); |r| >= |h| && r[|r| - |h|..] == h
  {
    var h := host.GetOr(DefaultHost);
    var pre := Scheme(https) + "://";
    assert BaseUrl(https, host) == pre + h;
    assert (pre + h)[|pre|..] == h;
  }

  /** `url($path)` as written: the path is appended only when PHP finds it truthy, so "0" is dropped. */
  function UrlAsWritten(https: Option<string>, host: Option<string>, path: string): (r: string)
    ensures StartsWith(r, BaseUrl(https, host))
    ensures r == BaseUrl(https, host) <==> EmptyString(TrimLeft(path, {'/'}))
    ensures !EmptyString(TrimLeft(path, {'/'})) ==> r == BaseUrl(https, host) + "/" + TrimLeft(path, {'/'})
  {
    var p := TrimLeft(path, {'/'});
    var b := BaseUrl(https, host);
    var r := b + (if !EmptyString(p) then "/" + p else "");
    assert r[..|b|] == b;
    assert !EmptyString(p) ==> |r| > |b|;
    r
  }

  /** `url("0")` and `url("")` coincide as written, although their paths differ. */
  lemma UrlAsWrittenDropsZero(https: Option<string>, host: Option<string>)
    ensures UrlAsWritten(https, host, "/0") == UrlAsWritten(https, host, "") == BaseUrl(https, host)
    ensures UrlAsWritten(https, host, "/0") != Url(https, host, "/0")
  {
    SlashZero();
    UrlAsWrittenAgrees(https, host, "/0");
  }

  lemma SlashZero()
    ensures TrimLeft("/0", {'/'}) == "0" && TrimLeft("", {'/'}) == ""
  {
    TrimLeftRun("/", "0", {'/'});
    assert "/" + "0" == "/0";
  }

  /** The written `url` and the corrected one differ only on paths that trim to "0". */
  lemma UrlAsWrittenAgrees(https: Option<string>, host: Option<string>, path: string)
    ensures UrlAsWritten(https, host, path) == Url(https, host, path) <==> TrimLeft(path, {'/'}) != "0"
  {
    var p := TrimLeft(path, {'/'});
    var b := BaseUrl(https, host);
    UrlShape(https, host, path);
    var u := Url(https, host, path);
    assert u == u[..|b|] + u[|b|..];
    if p == "0" {
      assert |u| == |b| + 2;
    }
  }

  /** `url($path)` with the evident intent: the path is appended whenever it is non-empty. */
  function Url(https: Option<string>, host: Option<string>, path: string): (r: string)
    ensures StartsWith(r, BaseUrl(https, host))
    ensures r == BaseUrl(https, host) <==> TrimLeft(path, {'/'}) == ""
  {
    var p := TrimLeft(path, {'/'});
    var b := BaseUrl(https, host);
    var r := b + (if p != "" then "/" + p else "");
    assert r[..|b|] == b;
    assert p != "" ==> |r| > |b|;
    r
  }

  /** A URL is the base URL followed by the path with its leading slashes replaced by exactly one (nothing for an empty path). */
  lemma UrlShape(https: Option<string>, host: Option<string>, path: string)
    ensures var u := Url(https, host, path); var b := BaseUrl(https, host);
      var p := TrimLeft(path, {'/'});
      && StartsWith(u, b)
      && u[|b|..] == (if p == "" then "" else "/" + p)
  {
    var b := BaseUrl(https, host);
    var p := TrimLeft(path, {'/'});
    var tail := if p == "" then "" else "/" + p;
    assert Url(https, host, path) == b + tail;
    assert (b + tail)[..|b|] == b;
    assert (b + tail)[|b|..] == tail;
  }

  /** The scheme is https exactly when HTTPS is set, non-empty and not "off". */
  lemma UrlScheme(https: Option<string>, host: Option<string>, path: string)
    ensures StartsWith(Url(https, host, path), "https://")
        <==> https.Some? && !EmptyString(https.value) && https.value != "off"
  {
    SchemeOf(Url(https, host, path), host.GetOr(DefaultHost), Scheme(https) == "https");
  }

  /** A string that starts with `http://host` does not start with `https://`, and one that starts with `https://host` does. */
  lemma SchemeOf(u: string, h: string, secure: bool)
    requires StartsWith(u, (if secure then "https" else "http") + "://" + h)
    ensures StartsWith(u, "https://") <==> secure
  {
    var b := (if secure then "https" else "http") + "://" + h;
    assert u[..|b|] == b;
    if secure {
      assert b[..8] == "https://";
      assert u[..8] == b[..8];
    } else {
      assert u[4] == b[4] == ':';
      if |u| >= 8 {
        assert u[..8][4] != "https://"[4];
      }
    }
  }

  /** Distinct paths give distinct URLs: the path can always be read back from the URL. */
  lemma UrlInjective(https: Option<string>, host: Option<string>, p1: string, p2: string)
    requires TrimLeft(p1, {'/'}) != TrimLeft(p2, {'/'})
    ensures Url(https, host, p1) != Url(https, host, p2)
  {
    UrlShape(https, host, p1);
    UrlShape(https, host, p2);
    var q1, q2 := TrimLeft(p1, {'/'}), TrimLeft(p2, {'/'});
    if q1 != "" && q2 != "" {
      assert q1 == ("/" + q1)[1..];
      assert q2 == ("/" + q2)[1..];
    }
  }

  /** `asset($path)`: `url('assets/' . ltrim($path, '/'))`. */
  function Asset(https: Option<string>, host: Option<string>, path: string): (r: string)
    ensures r == BaseUrl(https, host) + "/assets/" + TrimLeft(path, {'/'})
  {
    var p := TrimLeft(path, {'/'});
    UrlUnder(https, host, "assets/", p);
    AssetsDir();
    UrlAsWritten(https, host, "assets/" + p)
  }

  /** A path under a directory whose name does not start with "/" is kept whole behind one slash. */
  lemma UrlUnder(https: Option<string>, host: Option<string>, dir: string, p: string)
    requires |dir| > 1 && dir[0] != '/'
    ensures UrlAsWritten(https, host, dir + p) == BaseUrl(https, host) + ("/" + dir) + p
  {
    var q := dir + p;
    assert q[0] == dir[0];
    assert TrimLeft(q, {'/'}) == q;
    assert !EmptyString(q) by { assert |q| > 1; }
    SlashJoin(BaseUrl(https, host), dir, p);
  }

  lemma AssetsDir()
    ensures "/" + "assets/" == "/assets/"
  {
  }

  lemma SlashJoin(b: string, dir: string, p: string)
    ensures b + "/" + (dir + p) == b + ("/" + dir) + p
  {
  }

  /** `route($name, $params)`: named routes are not resolved; the name is used as a path and the parameters are ignored. */
  function Route(https: Option<string>, host: Option<string>, name: string, params: map<string, Value>): (r: string)
    ensures var n := TrimLeft(name, {'/'}); var b := BaseUrl(https, host);
      r == if EmptyString(n) then b else b + "/" + n
  {
    UrlAsWritten(https, host, name)
  }

  /** `route` inherits `url`'s handling of "0": `route('0')` is the bare base URL, like `route('')`. */
  lemma RouteDropsZero(https: Option<string>, host: Option<string>, params: map<string, Value>)
    ensures Route(https, host, "0", params) == Route(https, host, "", params) == BaseUrl(https, host)
    ensures Route(https, host, "0", params) != Url(https, host, "0")
  {
    assert TrimLeft("0", {'/'}) == "0" by { assert "0"[0] == '0'; }
    assert TrimLeft("", {'/'}) == "";
    UrlAsWrittenAgrees(https, host, "0");
  }

  /** `config($key, $default)`: no configuration store exists yet, so the default comes back. */
  function Config(key: string, default: Value): (r: Value)
    ensures r == default
  {
    default
  }
}
