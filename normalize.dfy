/**
 * normalizeContent and prepareTpl: the key under which two ref contents count as the same.
 * Plain text is compared trimmed; a lone `{{name|...}}` template is rewritten so that its
 * named parameters may come in any order while its positional ones keep theirs.
 */
module Normalize {
  import opened Text

  // ---------------------------------------------------------------- prepareTpl

  /** Where `/\}\}\s*$/` can match: a `}}` followed by nothing but white space. */
  predicate CloserAt(s: string, i: nat)
  {
    i + 2 <= |s| && s[i..i + 2] == "}}" && AllSpace(s[i + 2..])
  }

  /** A closer sits right before the trailing white space, so there is at most one. */
  lemma {:induction false} CloserIsAtEnd(s: string, i: nat)
    requires CloserAt(s, i)
    ensures i + 2 == |TrimRight(s)|
  {
    var w := |TrimRight(s)|;
    TrimRightShape(s);
    assert s[i + 1] == s[i..i + 2][1] == '}';
  }

  /** `content.replace(/\}\}\s*$/, '')`: the closing braces and the white space after them removed. */
  function StripCloser(s: string): (r: string)
    ensures r == s || (|r| <= |s| && r == s[..|r|] && CloserAt(s, |r|))
    ensures forall i :: 0 <= i <= |s| && CloserAt(s, i) ==> r == s[..i]
  {
    var w := |TrimRight(s)|;
    TrimRightShape(s);
    if w >= 2 && s[w - 2..w] == "}}" then
      assert CloserAt(s, w - 2) by { assert s[w..] == s[w - 2 + 2..]; }
      forall i | 0 <= i <= |s| && CloserAt(s, i) ensures i == w - 2 { CloserIsAtEnd(s, i); }
      s[..w - 2]
    else
      forall i | 0 <= i <= |s| && CloserAt(s, i) ensures false { CloserIsAtEnd(s, i); }
      s
  }

  /** The trimmed `|`-separated pieces: the template name first, then its parameters. */
  function Segments(content: string): (r: seq<string>)
    ensures |r| >= 1
  {
    TrimAll(Split(StripCloser(content), '|'))
  }

  /** A parameter without `=`: its position is its key. */
  predicate IsPositional(p: string)
  {
    '=' !in p
  }

  /** The synthetic key `n::k` of the k-th positional parameter. */
  function PositionalKey(k: nat): string
  {
    "n::" + NatToString(k)
  }

  /** A named parameter with its key and every value part trimmed. */
  function TrimNamed(p: string): string
  {
    Join(TrimAll(Split(p, '=')), "=")
  }

  /** The parameters rewritten left to right; `numbered` positional ones came before. */
  function Rewrite(params: seq<string>, numbered: nat): (r: seq<string>)
    ensures |r| == |params|
    decreases |params|
  {
    if params == [] then []
    else if IsPositional(params[0]) then
      [PositionalKey(numbered + 1) + "=" + params[0]] + Rewrite(params[1..], numbered + 1)
    else
      [TrimNamed(params[0])] + Rewrite(params[1..], numbered)
  }

  /** The parameters list prepareTpl returns for the pieces after the name. */
  function Params(params: seq<string>): (r: seq<string>)
    ensures Sorted(r)
    ensures multiset(r) == multiset(Rewrite(params, 0))
  {
    Sort(Rewrite(params, 0))
  }

  datatype Template = Template(name: string, params: seq<string>)

  /** prepareTpl: the template's trimmed name and its sorted, rewritten parameters. */
  function PrepareTpl(content: string): (t: Template)
    ensures !('|' in t.name) && (t.name == [] || (!IsSpace(t.name[0]) && !IsSpace(t.name[|t.name| - 1])))
    ensures Sorted(t.params) && |t.params| == |Segments(content)| - 1
  {
    var segs := Segments(content);
    TrimKeepsOut(Split(StripCloser(content), '|')[0], '|');
    TrimEnds(Split(StripCloser(content), '|')[0]);
    assert |multiset(Params(segs[1..]))| == |Params(segs[1..])|;
    Template(segs[0], Params(segs[1..]))
  }

  // ---------------------------------------------------------------- normalizeContent

  /** The three tests normalizeContent makes before treating trimmed content as one template. */
  predicate IsSingleTemplate(norm: string)
  {
    IndexOf(norm, "|", 0) > 0 && IndexOf(norm, "{{", 0) == 0 && IndexOf(norm, "{{", 1) < 0
  }

  /** The comparison string of a template: `name|params joined by |}}`. */
  function Render(t: Template): string
  {
    t.name + "|" + Join(t.params, "|") + "}}"
  }

  /** normalizeContent: `-` for empty content, the rendered template, or the trimmed text. */
  function NormalizeContent(content: string): (r: string)
    ensures content == [] ==> r == "-"
    ensures content != [] && !IsSingleTemplate(Trim(content)) ==> r == Trim(content)
  {
    if |content| == 0 then "-"
    else
      var norm := Trim(content);
      if IsSingleTemplate(norm) then Render(PrepareTpl(norm)) else norm
  }

  // ---------------------------------------------------------------- properties

  /** The template test in plain terms: starts with `{{`, holds a `|`, and has no second `{{`. */
  lemma {:induction false} IsSingleTemplateIff(norm: string)
    ensures IsSingleTemplate(norm) <==>
      (OccursAt(norm, "{{", 0) && '|' in norm && forall i :: 1 <= i <= |norm| ==> !OccursAt(norm, "{{", i))
  {
    if OccursAt(norm, "{{", 0) && '|' in norm {
      var k :| 0 <= k < |norm| && norm[k] == '|';
      assert OccursAt(norm, "|", k);
      assert !OccursAt(norm, "|", 0) by { assert norm[0] == norm[..2][0] == '{'; }
    }
    if IsSingleTemplate(norm) {
      var k := IndexOf(norm, "|", 0);
      assert norm[k] == norm[k..k + 1][0] == '|';
    }
  }

  /** Content that is only white space normalizes to the empty string, not to the `-` of empty content. */
  lemma {:induction false} BlankContent(content: string)
    requires content != [] && AllSpace(content)
    ensures NormalizeContent(content) == ""
  {
    TrimAllSpace(content);
    assert IndexOf("", "|", 0) == -1;
  }

  /** The empty-content sentinel is also what the one-character content `-` normalizes to. */
  lemma {:induction false} SentinelCollides()
    ensures NormalizeContent("") == NormalizeContent("-")
  {
    TrimNoSpace("-");
    assert !IsSingleTemplate("-") by {
      assert !OccursAt("-", "|", 0) && !OccursAt("-", "|", 1);
      assert IndexOf("-", "|", 1) == -1;
      assert IndexOf("-", "|", 0) == -1;
    }
  }

  /** Named parameters come out with the key and every `=`-separated part trimmed. */
  lemma {:induction false} TrimNamedParts(p: string)
    ensures Split(TrimNamed(p), '=') == TrimAll(Split(p, '='))
  {
    var parts := Split(p, '=');
    forall i | 0 <= i < |parts| ensures '=' !in TrimAll(parts)[i] { TrimKeepsOut(parts[i], '='); }
    SplitJoin(TrimAll(parts), '=');
  }

  /** The positional values in order. */
  function Positionals(ps: seq<string>): seq<string>
    decreases |ps|
  {
    if ps == [] then [] else (if IsPositional(ps[0]) then [ps[0]] else []) + Positionals(ps[1..])
  }

  /** The named parameters in order. */
  function Named(ps: seq<string>): seq<string>
    decreases |ps|
  {
    if ps == [] then [] else (if IsPositional(ps[0]) then [] else [ps[0]]) + Named(ps[1..])
  }

  /** Positional values numbered from `k + 1`, left to right. */
  function Numbered(vs: seq<string>, k: nat): (r: seq<string>)
    ensures |r| == |vs|
  {
    seq(|vs|, i requires 0 <= i < |vs| => PositionalKey(k + i + 1) + "=" + vs[i])
  }

  /** Named parameters trimmed. */
  function NamedForms(ns: seq<string>): (r: seq<string>)
    ensures |r| == |ns|
  {
    seq(|ns|, i requires 0 <= i < |ns| => TrimNamed(ns[i]))
  }

  /**
   * Rewriting numbers the positional values 1, 2, ... in order of appearance and trims the named
   * ones: as a multiset, it is exactly the two kinds treated apart.
   */
  lemma {:induction false} RewriteDecompose(ps: seq<string>, k: nat)
    ensures multiset(Rewrite(ps, k)) == multiset(Numbered(Positionals(ps), k)) + multiset(NamedForms(Named(ps)))
    decreases |ps|
  {
    if ps != [] {
      if IsPositional(ps[0]) {
        RewriteDecompose(ps[1..], k + 1);
        PositionalStep(ps, k);
      } else {
        RewriteDecompose(ps[1..], k);
        NamedStep(ps, k);
      }
    }
  }

  lemma {:induction false} PositionalStep(ps: seq<string>, k: nat)
    requires ps != [] && IsPositional(ps[0])
    requires multiset(Rewrite(ps[1..], k + 1)) ==
      multiset(Numbered(Positionals(ps[1..]), k + 1)) + multiset(NamedForms(Named(ps[1..])))
    ensures multiset(Rewrite(ps, k)) == multiset(Numbered(Positionals(ps), k)) + multiset(NamedForms(Named(ps)))
  {
    var head := PositionalKey(k + 1) + "=" + ps[0];
    assert Rewrite(ps, k) == [head] + Rewrite(ps[1..], k + 1);
    assert Positionals(ps) == [ps[0]] + Positionals(ps[1..]);
    assert Named(ps) == Named(ps[1..]);
    NumberedCons(ps[0], Positionals(ps[1..]), k);
    assert multiset(Numbered(Positionals(ps), k)) ==
      multiset{head} + multiset(Numbered(Positionals(ps[1..]), k + 1));
  }

  lemma {:induction false} NamedStep(ps: seq<string>, k: nat)
    requires ps != [] && !IsPositional(ps[0])
    requires multiset(Rewrite(ps[1..], k)) ==
      multiset(Numbered(Positionals(ps[1..]), k)) + multiset(NamedForms(Named(ps[1..])))
    ensures multiset(Rewrite(ps, k)) == multiset(Numbered(Positionals(ps), k)) + multiset(NamedForms(Named(ps)))
  {
    var head := TrimNamed(ps[0]);
    assert Rewrite(ps, k) == [head] + Rewrite(ps[1..], k);
    assert Positionals(ps) == Positionals(ps[1..]);
    assert Named(ps) == [ps[0]] + Named(ps[1..]);
    NamedFormsCons(ps[0], Named(ps[1..]));
    assert multiset(NamedForms(Named(ps))) == multiset{head} + multiset(NamedForms(Named(ps[1..])));
  }

  lemma {:induction false} NumberedCons(v: string, vs: seq<string>, k: nat)
    ensures Numbered([v] + vs, k) == [PositionalKey(k + 1) + "=" + v] + Numbered(vs, k + 1)
  {
    forall i | 1 <= i < |vs| + 1 ensures Numbered([v] + vs, k)[i] == Numbered(vs, k + 1)[i - 1] {
      assert k + i + 1 == (k + 1) + (i - 1) + 1;
    }
  }

  lemma {:induction false} NamedFormsCons(n: string, ns: seq<string>)
    ensures NamedForms([n] + ns) == [TrimNamed(n)] + NamedForms(ns)
  {
  }

  /** Trimming permuted parameters gives the same parameters permuted. */
  lemma {:induction false} NamedFormsPermutation(x: seq<string>, y: seq<string>)
    requires multiset(x) == multiset(y)
    ensures multiset(NamedForms(x)) == multiset(NamedForms(y))
  {
    MapPermutation(TrimNamed, x, y);
    assert NamedForms(x) == Map(TrimNamed, x);
    assert NamedForms(y) == Map(TrimNamed, y);
  }

  /** Templates whose positional values agree and whose named parameters are a permutation compare equal. */
  lemma {:induction false} NamedOrderIgnored(a: seq<string>, b: seq<string>)
    requires Positionals(a) == Positionals(b)
    requires multiset(Named(a)) == multiset(Named(b))
    ensures Params(a) == Params(b)
  {
    RewriteDecompose(a, 0);
    RewriteDecompose(b, 0);
    NamedFormsPermutation(Named(a), Named(b));
    SortedUnique(Params(a), Params(b));
  }

  /** The text of a synthetic key: it starts with `n::`. */
  predicate HasNumberedKey(x: string)
  {
    |x| >= 3 && x[..3] == "n::"
  }

  /** `n::i=u` determines both `i` and `u`. */
  lemma {:induction false} KeyValueInjective(i: nat, u: string, j: nat, v: string)
    requires PositionalKey(i) + "=" + u == PositionalKey(j) + "=" + v
    ensures i == j && u == v
  {
    var si, sj := NatToString(i), NatToString(j);
    assert PositionalKey(i) + "=" + u == "n::" + (si + "=" + u);
    assert PositionalKey(j) + "=" + v == "n::" + (sj + "=" + v);
    DigitsThenValue(si, u, sj, v);
    NatToStringInjective(i, j);
  }

  /** The first `=` after a run of digits separates the digits from the value. */
  lemma {:induction false} DigitsThenValue(d: string, u: string, e: string, v: string)
    requires forall k :: 0 <= k < |d| ==> IsDigit(d[k])
    requires forall k :: 0 <= k < |e| ==> IsDigit(e[k])
    requires "n::" + (d + "=" + u) == "n::" + (e + "=" + v)
    ensures d == e && u == v
  {
    var x, y := d + "=" + u, e + "=" + v;
    assert x == ("n::" + x)[3..] == y;
    assert forall k :: 0 <= k < |d| ==> x[k] == d[k] != '=';
    assert forall k :: 0 <= k < |e| ==> y[k] == e[k] != '=';
    assert x[|d|] == '=' && y[|e|] == '=';
    assert |d| == |e|;
    assert d == x[..|d|] && e == y[..|e|];
    assert u == x[|d| + 1..] && v == y[|e| + 1..];
  }

  /** Equal numbered lists number equal values. */
  lemma {:induction false} NumberedInjective(a: seq<string>, b: seq<string>, k: nat)
    requires multiset(Numbered(a, k)) == multiset(Numbered(b, k))
    ensures a == b
  {
    assert |a| == |multiset(Numbered(a, k))| == |multiset(Numbered(b, k))| == |b|;
    forall i | 0 <= i < |a| ensures a[i] == b[i] {
      assert Numbered(a, k)[i] in multiset(Numbered(b, k));
      NumberedMember(a, b, k, i);
    }
  }

  /** The i-th numbered entry of one list can only be the i-th entry of another. */
  lemma {:induction false} NumberedMember(a: seq<string>, b: seq<string>, k: nat, i: nat)
    requires i < |a| && Numbered(a, k)[i] in Numbered(b, k)
    ensures i < |b| && a[i] == b[i]
  {
    var x := Numbered(a, k)[i];
    var j :| 0 <= j < |b| && Numbered(b, k)[j] == x;
    KeyValueInjective(k + i + 1, a[i], k + j + 1, b[j]);
  }

  /**
   * Two parameter lists compare equal exactly when their positional values agree in order and
   * their trimmed named parameters agree as a multiset, provided no named parameter is itself
   * written with an `n::` key.
   */
  lemma {:induction false} ParamsEqualIff(a: seq<string>, b: seq<string>)
    requires forall x :: x in Named(a) ==> !HasNumberedKey(TrimNamed(x))
    requires forall x :: x in Named(b) ==> !HasNumberedKey(TrimNamed(x))
    ensures Params(a) == Params(b) <==>
      Positionals(a) == Positionals(b) && multiset(NamedForms(Named(a))) == multiset(NamedForms(Named(b)))
  {
    RewriteDecompose(a, 0);
    RewriteDecompose(b, 0);
    if Params(a) == Params(b) {
      NumberedAreKeyed(Positionals(a));
      NumberedAreKeyed(Positionals(b));
      NamedFormsUnkeyed(Named(a));
      NamedFormsUnkeyed(Named(b));
      SeparateKeyed(multiset(Numbered(Positionals(a), 0)), multiset(NamedForms(Named(a))),
                    multiset(Numbered(Positionals(b), 0)), multiset(NamedForms(Named(b))));
      NumberedInjective(Positionals(a), Positionals(b), 0);
    }
    if Positionals(a) == Positionals(b) && multiset(NamedForms(Named(a))) == multiset(NamedForms(Named(b))) {
      SortedUnique(Params(a), Params(b));
    }
  }

  /** Equal unions of keyed and unkeyed parts have equal keyed and equal unkeyed parts. */
  lemma {:induction false} SeparateKeyed(pa: multiset<string>, na: multiset<string>, pb: multiset<string>, nb: multiset<string>)
    requires pa + na == pb + nb
    requires forall x :: x in pa || x in pb ==> HasNumberedKey(x)
    requires forall x :: x in na || x in nb ==> !HasNumberedKey(x)
    ensures pa == pb && na == nb
  {
    forall x ensures pa[x] == pb[x] && na[x] == nb[x] {
      assert (pa + na)[x] == (pb + nb)[x];
      if HasNumberedKey(x) {
        assert na[x] == 0 && nb[x] == 0;
      } else {
        assert pa[x] == 0 && pb[x] == 0;
      }
    }
  }

  lemma {:induction false} NumberedAreKeyed(vs: seq<string>)
    ensures forall x :: x in multiset(Numbered(vs, 0)) ==> HasNumberedKey(x)
  {
    forall x | x in multiset(Numbered(vs, 0)) ensures HasNumberedKey(x) {
      var i :| 0 <= i < |vs| && Numbered(vs, 0)[i] == x;
      assert x == PositionalKey(i + 1) + "=" + vs[i];
      assert x[..3] == PositionalKey(i + 1)[..3] == "n::";
    }
  }

  lemma {:induction false} NamedFormsUnkeyed(ns: seq<string>)
    requires forall x :: x in ns ==> !HasNumberedKey(TrimNamed(x))
    ensures forall x :: x in multiset(NamedForms(ns)) ==> !HasNumberedKey(x)
  {
  }

  /** So swapping two different positional values makes two templates compare different. */
  lemma {:induction false} PositionalOrderMatters(p: seq<string>, u: string, v: string, q: seq<string>)
    requires IsPositional(u) && IsPositional(v) && u != v
    ensures Params(p + [u, v] + q) != Params(p + [v, u] + q)
  {
    var a, b := p + [u, v] + q, p + [v, u] + q;
    assert a == p + ([u, v] + q) && b == p + ([v, u] + q);
    PositionalsAppend(p, [u, v] + q);
    PositionalsAppend(p, [v, u] + q);
    NamedAppend(p, [u, v] + q);
    NamedAppend(p, [v, u] + q);
    PositionalPair(u, v, q);
    PositionalPair(v, u, q);
    var n := |Positionals(p)|;
    assert Positionals(a)[n] == ([u, v] + Positionals(q))[0];
    assert Positionals(b)[n] == ([v, u] + Positionals(q))[0];
    if Params(a) == Params(b) {
      RewriteDecompose(a, 0);
      RewriteDecompose(b, 0);
      assert Named(a) == Named(b);
      var named := multiset(NamedForms(Named(a)));
      MultisetCancel(multiset(Numbered(Positionals(a), 0)), multiset(Numbered(Positionals(b), 0)), named);
      NumberedInjective(Positionals(a), Positionals(b), 0);
      assert false;
    }
  }

  /** Two positional values in front contribute themselves, in order, and no named parameter. */
  lemma {:induction false} PositionalPair(u: string, v: string, q: seq<string>)
    requires IsPositional(u) && IsPositional(v)
    ensures Positionals([u, v] + q) == [u, v] + Positionals(q)
    ensures Named([u, v] + q) == Named(q)
  {
    assert ([u, v] + q)[1..] == [v] + q && ([v] + q)[1..] == q;
  }

  lemma {:induction false} PositionalsAppend(x: seq<string>, y: seq<string>)
    ensures Positionals(x + y) == Positionals(x) + Positionals(y)
    decreases |x|
  {
    if x != [] {
      assert (x + y)[0] == x[0] && (x + y)[1..] == x[1..] + y;
      PositionalsAppend(x[1..], y);
      var h := if IsPositional(x[0]) then [x[0]] else [];
      assert Positionals(x + y) == h + Positionals(x[1..] + y);
      assert Positionals(x) == h + Positionals(x[1..]);
    } else {
      assert x + y == y;
    }
  }

  lemma {:induction false} NamedAppend(x: seq<string>, y: seq<string>)
    ensures Named(x + y) == Named(x) + Named(y)
    decreases |x|
  {
    if x != [] {
      assert (x + y)[0] == x[0] && (x + y)[1..] == x[1..] + y;
      NamedAppend(x[1..], y);
      var h := if IsPositional(x[0]) then [] else [x[0]];
      assert Named(x + y) == h + Named(x[1..] + y);
      assert Named(x) == h + Named(x[1..]);
    } else {
      assert x + y == y;
    }
  }
}
