/**
 * Why the short-ref pass leaves the full refs where the gathering pass found them. Pass 2 swaps
 * self-closing `<ref .../>` tags for `<ref name="N" />` tags. When both the old and the new tag
 * sit on one line, the full matches that stay clear of a tag do not change. A full match that
 * spans a tag holds `<ref` past its start, and the sanity check of pass 1 throws on such a
 * match.
 */
module Alignment {
  import opened Wrappers
  import opened Text
  import opened Patterns

  /** The sanity check on a full match: its text holds `<ref` again from index 2 on. */
  predicate Overruns(t: string, m: Match)
    requires m.start <= m.end <= |t|
  {
    var all := MatchText(t, m);
    2 <= |all| && IndexOf(all, "<ref", 2) > 0
  }

  /** No full match reported from `from` on overruns. */
  predicate NoOverrunFrom(t: string, from: nat)
    requires from <= |t|
  {
    var ms := Matches(FullRef, t, from);
    forall i :: 0 <= i < |ms| ==> !Overruns(t, ms[i])
  }

  /** Two lists of full matches that agree, one for one, on attributes and content. */
  predicate Aligned(a: seq<Match>, b: seq<Match>)
  {
    |a| == |b| && forall i :: 0 <= i < |a| ==> a[i].group1 == b[i].group1 && a[i].group2 == b[i].group2
  }

  /** Text that can stand inside a self-closing tag on one line: no `>`, `/` or line terminator. */
  predicate TagText(s: string)
  {
    forall i :: 0 <= i < |s| ==> InClass(AttrText, s[i]) && !IsLineTerminator(s[i])
  }

  /** `t[s..e]` is a self-closing ref tag on one line: `<ref`, tag text, then `/>`. */
  predicate TagSpan(t: string, s: nat, e: nat)
  {
    && s + 6 <= e <= |t| && OccursAt(t, "<ref", s) && t[e - 2] == '/' && t[e - 1] == '>'
    && forall i :: s + 4 <= i < e - 2 ==> InClass(AttrText, t[i]) && !IsLineTerminator(t[i])
  }

  /** A whole string that is such a tag. */
  predicate OneLineTag(x: string)
  {
    TagSpan(x, 0, |x|)
  }

  // ---------------------------------------------------------------- scanning a suffix

  function Shifted(m: Match, d: nat): Match
  {
    Match(m.start + d, m.end + d, m.group1, m.group2)
  }

  function ShiftedAll(ms: seq<Match>, d: nat): (r: seq<Match>)
    ensures |r| == |ms| && forall i :: 0 <= i < |ms| ==> r[i] == Shifted(ms[i], d)
  {
    seq(|ms|, i requires 0 <= i < |ms| => Shifted(ms[i], d))
  }

  /** `u` is `t` with its first `d` characters dropped. */
  predicate SuffixAt(t: string, u: string, d: nat)
  {
    d + |u| == |t| && forall i :: 0 <= i < |u| ==> u[i] == t[i + d]
  }

  lemma {:induction false} SuffixSlice(t: string, u: string, d: nat, i: nat, j: nat, I: nat, J: nat)
    requires SuffixAt(t, u, d) && i <= j <= |u| && I == i + d && J == j + d
    ensures u[i..j] == t[I..J]
  {
  }

  // In the lemmas below a position `i` in `u` and the same position `I` in `t` are passed
  // apart, so that each lemma speaks of the very terms the scanners unfold to.

  lemma {:induction false} OccursShift(t: string, u: string, d: nat, pat: string, i: nat, I: nat)
    requires SuffixAt(t, u, d) && i <= |u| && I == i + d
    ensures OccursAt(t, pat, I) <==> OccursAt(u, pat, i)
  {
    if i + |pat| <= |u| {
      SuffixSlice(t, u, d, i, i + |pat|, I, I + |pat|);
    }
  }

  lemma {:induction false} RunEndShift(k: CharClass, t: string, u: string, d: nat, p: nat, P: nat)
    requires SuffixAt(t, u, d) && p <= |u| && P == p + d
    ensures RunEnd(k, t, P) == RunEnd(k, u, p) + d
    decreases |u| - p
  {
    RunEndUnfold(k, u, p);
    RunEndUnfold(k, t, P);
    if p < |u| {
      assert u[p] == t[P];
      if InClass(k, u[p]) {
        RunEndShift(k, t, u, d, p + 1, P + 1);
      }
    }
  }

  lemma {:induction false} RunEndUnfold(k: CharClass, t: string, p: nat)
    requires p <= |t|
    ensures RunEnd(k, t, p) == if p < |t| && InClass(k, t[p]) then RunEnd(k, t, p + 1) else p
  {
  }

  lemma {:induction false} CloseEndShift(t: string, u: string, d: nat, e: nat, E: nat)
    requires SuffixAt(t, u, d) && e <= |u| && E == e + d
    ensures CloseEnd(t, E).Some? <==> CloseEnd(u, e).Some?
    ensures CloseEnd(u, e).Some? ==> CloseEnd(t, E).value == CloseEnd(u, e).value + d
    decreases |u| - e
  {
    OccursShift(t, u, d, "</ref>", e, E);
    if e < |u| {
      assert u[e] == t[E];
      if !OccursAt(u, "</ref>", e) && !IsLineTerminator(u[e]) {
        CloseEndShift(t, u, d, e + 1, E + 1);
      }
    }
  }

  /** The full match at `p`, read off the scan's three steps. */
  lemma {:induction false} FullRefAtSome(t: string, p: nat, q: nat, e: nat)
    requires p + 4 <= |t| && OccursAt(t, "<ref", p) && q == RunEnd(AttrText, t, p + 4)
    requires q + 1 < |t| && t[q] == '>' && !IsLineTerminator(t[q + 1]) && CloseEnd(t, q + 2) == Some(e)
    ensures FullRefAt(t, p) == Some(Match(p, e + 6, t[p + 4..q], t[q + 1..e]))
  {
  }

  /** No full match at `p` when one of the scan's steps fails. */
  lemma {:induction false} FullRefAtNone(t: string, p: nat)
    requires p <= |t|
    requires || !OccursAt(t, "<ref", p)
             || var q := RunEnd(AttrText, t, p + 4);
                q + 1 >= |t| || t[q] != '>' || IsLineTerminator(t[q + 1]) || CloseEnd(t, q + 2).None?
    ensures FullRefAt(t, p).None?
  {
  }

  lemma {:induction false} FullRefAtShift(t: string, u: string, d: nat, p: nat, P: nat)
    requires SuffixAt(t, u, d) && p <= |u| && P == p + d
    ensures FullRefAt(t, P).Some? <==> FullRefAt(u, p).Some?
    ensures FullRefAt(u, p).Some? ==> FullRefAt(t, P).value == Shifted(FullRefAt(u, p).value, d)
  {
    OccursShift(t, u, d, "<ref", p, P);
    if OccursAt(u, "<ref", p) {
      RunEndShift(AttrText, t, u, d, p + 4, P + 4);
      FullRefAtShiftAfterRun(t, u, d, p, P, RunEnd(AttrText, u, p + 4), RunEnd(AttrText, t, P + 4));
    } else {
      FullRefAtNone(t, P);
      FullRefAtNone(u, p);
    }
  }

  lemma {:induction false} FullRefAtShiftAfterRun(t: string, u: string, d: nat, p: nat, P: nat, q: nat, Q: nat)
    requires SuffixAt(t, u, d) && p + 4 <= |u| && P == p + d
    requires OccursAt(u, "<ref", p) && OccursAt(t, "<ref", P)
    requires q == RunEnd(AttrText, u, p + 4) && Q == RunEnd(AttrText, t, P + 4) && Q == q + d
    ensures FullRefAt(t, P).Some? <==> FullRefAt(u, p).Some?
    ensures FullRefAt(u, p).Some? ==> FullRefAt(t, P).value == Shifted(FullRefAt(u, p).value, d)
  {
    if q + 1 < |u| {
      assert u[q] == t[Q] && u[q + 1] == t[Q + 1];
    }
    if q + 1 < |u| && u[q] == '>' && !IsLineTerminator(u[q + 1]) {
      CloseEndShift(t, u, d, q + 2, Q + 2);
      var c, C := CloseEnd(u, q + 2), CloseEnd(t, Q + 2);
      if c.Some? {
        FullRefAtShiftClosed(t, u, d, p, P, q, Q, c.value, C.value);
        return;
      }
    }
    FullRefAtNone(t, P);
    FullRefAtNone(u, p);
  }

  lemma {:induction false} FullRefAtShiftClosed(t: string, u: string, d: nat, p: nat, P: nat, q: nat, Q: nat, e: nat, E: nat)
    requires SuffixAt(t, u, d) && p + 4 <= |u| && P == p + d
    requires OccursAt(u, "<ref", p) && OccursAt(t, "<ref", P)
    requires q == RunEnd(AttrText, u, p + 4) && Q == RunEnd(AttrText, t, P + 4) && Q == q + d
    requires q + 1 < |u| && u[q] == '>' && !IsLineTerminator(u[q + 1])
    requires t[Q] == '>' && !IsLineTerminator(t[Q + 1])
    requires CloseEnd(u, q + 2) == Some(e) && CloseEnd(t, Q + 2) == Some(E) && E == e + d
    ensures FullRefAt(u, p).Some? && FullRefAt(t, P) == Some(Shifted(FullRefAt(u, p).value, d))
  {
    SuffixSlice(t, u, d, p + 4, q, P + 4, Q);
    SuffixSlice(t, u, d, q + 1, e, Q + 1, E);
    var m := Match(p, e + 6, u[p + 4..q], u[q + 1..e]);
    assert Shifted(m, d) == Match(P, E + 6, t[P + 4..Q], t[Q + 1..E]);
    FullRefAtSome(u, p, q, e);
    FullRefAtSome(t, P, Q, E);
  }

  /** The scan for the next full match: a match here, or the scan from the next position on. */
  lemma {:induction false} NextMatchStep(t: string, f: nat)
    requires f <= |t|
    ensures FullRefAt(t, f).Some? ==> NextMatch(FullRef, t, f) == FullRefAt(t, f)
    ensures FullRefAt(t, f).None? && f == |t| ==> NextMatch(FullRef, t, f).None?
    ensures FullRefAt(t, f).None? && f < |t| ==> NextMatch(FullRef, t, f) == NextMatch(FullRef, t, f + 1)
  {
  }

  lemma {:induction false} NextMatchShift(t: string, u: string, d: nat, f: nat, F: nat)
    requires SuffixAt(t, u, d) && f <= |u| && F == f + d
    ensures NextMatch(FullRef, t, F).Some? <==> NextMatch(FullRef, u, f).Some?
    ensures NextMatch(FullRef, u, f).Some? ==>
      NextMatch(FullRef, t, F).value == Shifted(NextMatch(FullRef, u, f).value, d)
    decreases |u| - f
  {
    FullRefAtShift(t, u, d, f, F);
    NextMatchStep(u, f);
    NextMatchStep(t, F);
    if FullRefAt(u, f).None? && f < |u| {
      NextMatchShift(t, u, d, f + 1, F + 1);
    }
  }

  lemma {:induction false} ShiftedAllCons(m: Match, ms: seq<Match>, d: nat)
    ensures ShiftedAll([m] + ms, d) == [Shifted(m, d)] + ShiftedAll(ms, d)
  {
    var x, y := ShiftedAll([m] + ms, d), [Shifted(m, d)] + ShiftedAll(ms, d);
    forall i | 0 <= i < |x|
      ensures x[i] == y[i]
    {
      if i > 0 {
        assert ([m] + ms)[i] == ms[i - 1];
      }
    }
  }

  lemma {:induction false} MatchesShiftFrom(t: string, u: string, d: nat, f: nat, F: nat)
    requires SuffixAt(t, u, d) && f <= |u| && F == f + d
    ensures Matches(FullRef, t, F) == ShiftedAll(Matches(FullRef, u, f), d)
    decreases |u| - f
  {
    NextMatchShift(t, u, d, f, F);
    if NextMatch(FullRef, u, f).Some? {
      var m, M := NextMatch(FullRef, u, f).value, NextMatch(FullRef, t, F).value;
      assert M == Shifted(m, d);
      var rest, Rest := Matches(FullRef, u, m.end), Matches(FullRef, t, M.end);
      MatchesShiftFrom(t, u, d, m.end, M.end);
      assert Rest == ShiftedAll(rest, d);
      assert Matches(FullRef, u, f) == [m] + rest;
      assert Matches(FullRef, t, F) == [M] + Rest;
      ShiftedAllCons(m, rest, d);
    } else {
      assert Matches(FullRef, u, f) == [] && Matches(FullRef, t, F) == [];
    }
  }

  /** A match moved along with the text it sits in overruns exactly when it did before. */
  lemma {:induction false} OverrunsShift(t: string, u: string, d: nat, m: Match)
    requires SuffixAt(t, u, d) && m.start <= m.end <= |u|
    ensures Overruns(t, Shifted(m, d)) == Overruns(u, m)
  {
    SuffixSlice(t, u, d, m.start, m.end, m.start + d, m.end + d);
  }

  // ---------------------------------------------------------------- skipping positions

  lemma {:induction false} NextMatchSkip(t: string, f: nat, g: nat)
    requires f <= g <= |t| && forall p :: f <= p < g ==> FullRefAt(t, p).None?
    ensures NextMatch(FullRef, t, f) == NextMatch(FullRef, t, g)
    decreases g - f
  {
    if f < g {
      NextMatchSkip(t, f + 1, g);
    }
  }

  lemma {:induction false} MatchesSkip(t: string, f: nat, g: nat)
    requires f <= g <= |t| && forall p :: f <= p < g ==> FullRefAt(t, p).None?
    ensures Matches(FullRef, t, f) == Matches(FullRef, t, g)
  {
    NextMatchSkip(t, f, g);
  }

  /** The run of a class from `p` stops at the first character outside it. */
  lemma {:induction false} RunEndTo(k: CharClass, t: string, p: nat, q: nat)
    requires p <= q < |t| && (forall i :: p <= i < q ==> InClass(k, t[i])) && !InClass(k, t[q])
    ensures RunEnd(k, t, p) == q
  {
  }

  // ---------------------------------------------------------------- inside a tag

  lemma {:induction false} CloseChars(t: string, i: nat)
    requires OccursAt(t, "</ref>", i)
    ensures t[i] == '<' && t[i + 1] == '/' && t[i + 2] == 'r' && t[i + 3] == 'e' && t[i + 4] == 'f' && t[i + 5] == '>'
  {
    var w := t[i..i + 6];
    assert t[i] == w[0] && t[i + 1] == w[1] && t[i + 2] == w[2];
    assert t[i + 3] == w[3] && t[i + 4] == w[4] && t[i + 5] == w[5];
  }

  lemma {:induction false} OpenChars(t: string, i: nat)
    requires OccursAt(t, "<ref", i)
    ensures t[i] == '<' && t[i + 1] == 'r' && t[i + 2] == 'e' && t[i + 3] == 'f'
  {
    var w := t[i..i + 4];
    assert t[i] == w[0] && t[i + 1] == w[1] && t[i + 2] == w[2] && t[i + 3] == w[3];
  }

  lemma {:induction false} TagChars(t: string, s: nat, e: nat)
    requires TagSpan(t, s, e)
    ensures t[s] == '<' && t[s + 1] == 'r' && t[s + 2] == 'e' && t[s + 3] == 'f'
    ensures forall i :: s <= i < e ==> !IsLineTerminator(t[i])
    ensures forall i :: s <= i < e - 2 ==> InClass(AttrText, t[i])
  {
    OpenChars(t, s);
  }

  /** No `</ref>` starts inside a tag or runs into it from the left. */
  lemma {:induction false} NoCloseInTag(t: string, s: nat, e: nat, i: nat)
    requires TagSpan(t, s, e) && i < e && s < i + 6
    ensures !OccursAt(t, "</ref>", i)
  {
    TagChars(t, s, e);
    if OccursAt(t, "</ref>", i) {
      CloseChars(t, i);
    }
  }

  /** The closing search moves through a tag without stopping. */
  lemma {:induction false} CloseEndSkipTag(t: string, s: nat, e: nat, e0: nat)
    requires TagSpan(t, s, e) && s <= e0 <= e
    ensures CloseEnd(t, e0) == CloseEnd(t, e)
    decreases e - e0
  {
    if e0 < e {
      TagChars(t, s, e);
      NoCloseInTag(t, s, e, e0);
      CloseEndSkipTag(t, s, e, e0 + 1);
    }
  }

  /** No full match starts inside a tag: its attribute text runs into the `/`. */
  lemma {:induction false} FullRefAtInTag(t: string, s: nat, e: nat, p: nat)
    requires TagSpan(t, s, e) && s <= p < e
    ensures FullRefAt(t, p).None?
  {
    TagChars(t, s, e);
    if OccursAt(t, "<ref", p) {
      OpenChars(t, p);
      assert p + 4 <= e - 2;
      RunEndTo(AttrText, t, p + 4, e - 2);
      FullRefAtNone(t, p);
    }
  }

  // ---------------------------------------------------------------- one tag swapped

  /**
   * `a` and `b` agree before `s`, where each holds a one-line tag (ending at `ea` and `eb`), and
   * a `</ref>` follows the one tag on its line exactly when one follows the other.
   */
  /** `a` and `b` agree on their first `s` characters. */
  predicate SamePrefix(a: string, b: string, s: nat)
  {
    s <= |a| && s <= |b| && forall i :: 0 <= i < s ==> a[i] == b[i]
  }

  predicate Swapped(a: string, b: string, s: nat, ea: nat, eb: nat)
  {
    && TagSpan(a, s, ea) && TagSpan(b, s, eb) && SamePrefix(a, b, s)
    && (CloseEnd(a, ea).Some? <==> CloseEnd(b, eb).Some?)
  }

  lemma {:induction false} SameBefore(a: string, b: string, s: nat, i: nat, j: nat)
    requires SamePrefix(a, b, s) && i <= j <= s
    ensures a[i..j] == b[i..j]
  {
    assert forall k :: 0 <= k < j - i ==> a[i..j][k] == a[i + k] && b[i..j][k] == b[i + k];
  }

  /** Before the tag, the closing search finds the same `</ref>` in both, or runs past the tag in both. */
  lemma {:induction false} CloseEndSwapped(a: string, b: string, s: nat, ea: nat, eb: nat, e0: nat)
    requires Swapped(a, b, s, ea, eb) && e0 <= s
    ensures CloseEnd(a, e0).Some? <==> CloseEnd(b, e0).Some?
    ensures CloseEnd(a, e0).Some? ==>
      || (CloseEnd(a, e0).value + 6 <= s && CloseEnd(b, e0) == CloseEnd(a, e0))
      || (CloseEnd(a, e0).value >= ea && CloseEnd(b, e0).value >= eb)
    decreases s - e0
  {
    if e0 == s {
      CloseEndSkipTag(a, s, ea, s);
      CloseEndSkipTag(b, s, eb, s);
    } else {
      CloseStepSwapped(a, b, s, ea, eb, e0);
      CloseEndSwapped(a, b, s, ea, eb, e0 + 1);
      CloseEndUnfold(a, e0);
      CloseEndUnfold(b, e0);
    }
  }

  /** One step of the closing search before the tag sees the same thing in both texts. */
  lemma {:induction false} CloseStepSwapped(a: string, b: string, s: nat, ea: nat, eb: nat, e0: nat)
    requires SamePrefix(a, b, s) && TagSpan(a, s, ea) && TagSpan(b, s, eb) && e0 < s
    ensures a[e0] == b[e0]
    ensures OccursAt(a, "</ref>", e0) <==> OccursAt(b, "</ref>", e0)
    ensures OccursAt(a, "</ref>", e0) ==> e0 + 6 <= s
  {
    if e0 + 6 <= s {
      SameBefore(a, b, s, e0, e0 + 6);
    } else {
      NoCloseInTag(a, s, ea, e0);
      NoCloseInTag(b, s, eb, e0);
    }
  }

  lemma {:induction false} CloseEndUnfold(t: string, e: nat)
    requires e < |t|
    ensures CloseEnd(t, e) ==
      if OccursAt(t, "</ref>", e) then Some(e) else if !IsLineTerminator(t[e]) then CloseEnd(t, e + 1) else None
  {
  }

  /** Before the tag, an attribute run ends at the same place in both, or at each tag's `/`. */
  lemma {:induction false} RunEndSwapped(a: string, b: string, s: nat, ea: nat, eb: nat, p: nat)
    requires Swapped(a, b, s, ea, eb) && p <= s
    ensures || (RunEnd(AttrText, a, p) < s && RunEnd(AttrText, b, p) == RunEnd(AttrText, a, p))
            || (RunEnd(AttrText, a, p) == ea - 2 && RunEnd(AttrText, b, p) == eb - 2)
    decreases s - p
  {
    if p == s {
      TagChars(a, s, ea);
      TagChars(b, s, eb);
      RunEndTo(AttrText, a, s, ea - 2);
      RunEndTo(AttrText, b, s, eb - 2);
    } else {
      RunEndUnfold(AttrText, a, p);
      RunEndUnfold(AttrText, b, p);
      assert a[p] == b[p];
      if InClass(AttrText, a[p]) {
        RunEndSwapped(a, b, s, ea, eb, p + 1);
      }
    }
  }

  /** A match that holds the tag's `<ref` from its third character on overruns. */
  lemma {:induction false} OverrunsAt(t: string, m: Match, j: nat)
    requires m.start <= m.end <= |t| && m.start + 2 <= j && j + 4 <= m.end && OccursAt(t, "<ref", j)
    ensures Overruns(t, m)
  {
    var all := MatchText(t, m);
    assert all[j - m.start..j - m.start + 4] == t[j..j + 4];
    assert OccursAt(all, "<ref", j - m.start);
  }

  /** A `<ref` before the tag lies wholly before it, and is in both texts or in neither. */
  lemma {:induction false} OpenSwapped(a: string, b: string, s: nat, ea: nat, eb: nat, p: nat)
    requires Swapped(a, b, s, ea, eb) && p < s
    ensures OccursAt(a, "<ref", p) <==> OccursAt(b, "<ref", p)
    ensures OccursAt(a, "<ref", p) ==> p + 4 <= s
  {
    if p + 4 <= s {
      SameBefore(a, b, s, p, p + 4);
    } else {
      TagChars(a, s, ea);
      TagChars(b, s, eb);
      if OccursAt(a, "<ref", p) {
        OpenChars(a, p);
      }
      if OccursAt(b, "<ref", p) {
        OpenChars(b, p);
      }
    }
  }

  lemma {:induction false} CharSwapped(a: string, b: string, s: nat, ea: nat, eb: nat, i: nat)
    requires Swapped(a, b, s, ea, eb) && i <= s
    ensures a[i] == b[i]
  {
    if i < s {
      SameBefore(a, b, s, i, i + 1);
      assert a[i] == a[i..i + 1][0] && b[i] == b[i..i + 1][0];
    } else {
      TagChars(a, s, ea);
      TagChars(b, s, eb);
    }
  }

  /**
   * A full match starting before the tag exists in both texts or in neither; it is the same
   * match in both when it ends before the tag, and it overruns when it does not.
   */
  lemma {:induction false} FullRefSwapped(a: string, b: string, s: nat, ea: nat, eb: nat, p: nat)
    requires Swapped(a, b, s, ea, eb) && p < s
    ensures FullRefAt(a, p).Some? <==> FullRefAt(b, p).Some?
    ensures FullRefAt(a, p).Some? ==>
      || (FullRefAt(a, p).value.end <= s && FullRefAt(b, p) == FullRefAt(a, p))
      || Overruns(a, FullRefAt(a, p).value)
  {
    OpenSwapped(a, b, s, ea, eb, p);
    if OccursAt(a, "<ref", p) {
      RunEndSwapped(a, b, s, ea, eb, p + 4);
      var q := RunEnd(AttrText, a, p + 4);
      if q < s {
        FullRefSwappedAfterRun(a, b, s, ea, eb, p, q);
      } else {
        FullRefAtSlash(a, p, ea - 2);
        FullRefAtSlash(b, p, eb - 2);
      }
    } else {
      FullRefAtNone(a, p);
      FullRefAtNone(b, p);
    }
  }

  /** The attribute run stops at a `/`: no full match. */
  lemma {:induction false} FullRefAtSlash(t: string, p: nat, q: nat)
    requires p + 4 <= q < |t| && OccursAt(t, "<ref", p) && q == RunEnd(AttrText, t, p + 4) && t[q] == '/'
    ensures FullRefAt(t, p).None?
  {
  }

  lemma {:induction false} FullRefSwappedAfterRun(a: string, b: string, s: nat, ea: nat, eb: nat, p: nat, q: nat)
    requires Swapped(a, b, s, ea, eb) && p + 4 <= q < s
    requires OccursAt(a, "<ref", p) && OccursAt(b, "<ref", p)
    requires q == RunEnd(AttrText, a, p + 4) && q == RunEnd(AttrText, b, p + 4)
    ensures FullRefAt(a, p).Some? <==> FullRefAt(b, p).Some?
    ensures FullRefAt(a, p).Some? ==>
      || (FullRefAt(a, p).value.end <= s && FullRefAt(b, p) == FullRefAt(a, p))
      || Overruns(a, FullRefAt(a, p).value)
  {
    CharSwapped(a, b, s, ea, eb, q);
    CharSwapped(a, b, s, ea, eb, q + 1);
    if a[q] == '>' && !IsLineTerminator(a[q + 1]) {
      CloseEndSwappedNear(a, b, s, ea, eb, q + 2);
      FullRefSwappedClosing(a, b, s, ea, eb, p, q);
    } else {
      FullRefAtNone(a, p);
      FullRefAtNone(b, p);
    }
  }

  /** The closing search from just past the tag's first character on, in both texts. */
  lemma {:induction false} CloseEndSwappedNear(a: string, b: string, s: nat, ea: nat, eb: nat, e0: nat)
    requires Swapped(a, b, s, ea, eb) && e0 <= s + 1
    ensures CloseEnd(a, e0).Some? <==> CloseEnd(b, e0).Some?
    ensures CloseEnd(a, e0).Some? ==>
      || (CloseEnd(a, e0).value + 6 <= s && CloseEnd(b, e0) == CloseEnd(a, e0))
      || (CloseEnd(a, e0).value >= ea && CloseEnd(b, e0).value >= eb)
  {
    if e0 <= s {
      CloseEndSwapped(a, b, s, ea, eb, e0);
    } else {
      CloseEndSkipTag(a, s, ea, e0);
      CloseEndSkipTag(b, s, eb, e0);
    }
  }

  /** The attribute run is closed by `>`: the match stands or falls with the `</ref>` search. */
  lemma {:induction false} FullRefSwappedClosing(a: string, b: string, s: nat, ea: nat, eb: nat, p: nat, q: nat)
    requires SamePrefix(a, b, s) && s + 6 <= ea <= |a| && s + 6 <= eb <= |b| && OccursAt(a, "<ref", s) && p + 4 <= q < s
    requires OccursAt(a, "<ref", p) && OccursAt(b, "<ref", p)
    requires q == RunEnd(AttrText, a, p + 4) && q == RunEnd(AttrText, b, p + 4)
    requires a[q] == '>' && b[q] == '>' && !IsLineTerminator(a[q + 1]) && !IsLineTerminator(b[q + 1])
    requires CloseEnd(a, q + 2).Some? <==> CloseEnd(b, q + 2).Some?
    requires CloseEnd(a, q + 2).Some? ==>
      || (CloseEnd(a, q + 2).value + 6 <= s && CloseEnd(b, q + 2) == CloseEnd(a, q + 2))
      || (CloseEnd(a, q + 2).value >= ea && CloseEnd(b, q + 2).value >= eb)
    ensures FullRefAt(a, p).Some? <==> FullRefAt(b, p).Some?
    ensures FullRefAt(a, p).Some? ==>
      || (FullRefAt(a, p).value.end <= s && FullRefAt(b, p) == FullRefAt(a, p))
      || Overruns(a, FullRefAt(a, p).value)
  {
    var ca, cb := CloseEnd(a, q + 2), CloseEnd(b, q + 2);
    if ca.Some? {
      if ca.value + 6 <= s {
        SameBefore(a, b, s, p + 4, q);
        SameBefore(a, b, s, q + 1, ca.value);
        FullRefSame(a, b, p, q, ca.value);
      } else {
        FullRefSwappedOver(a, b, s, p, q, ca.value, cb.value);
      }
    } else {
      FullRefAtNone(a, p);
      FullRefAtNone(b, p);
    }
  }

  lemma {:induction false} FullRefSame(a: string, b: string, p: nat, q: nat, e: nat)
    requires p + 4 <= q && q + 2 <= e && e + 6 <= |a| && e + 6 <= |b|
    requires OccursAt(a, "<ref", p) && OccursAt(b, "<ref", p)
    requires q == RunEnd(AttrText, a, p + 4) && q == RunEnd(AttrText, b, p + 4)
    requires a[q] == '>' && b[q] == '>' && !IsLineTerminator(a[q + 1]) && !IsLineTerminator(b[q + 1])
    requires CloseEnd(a, q + 2) == Some(e) && CloseEnd(b, q + 2) == Some(e)
    requires a[p + 4..q] == b[p + 4..q] && a[q + 1..e] == b[q + 1..e]
    ensures FullRefAt(a, p) == FullRefAt(b, p) == Some(Match(p, e + 6, a[p + 4..q], a[q + 1..e]))
  {
    FullRefAtSome(a, p, q, e);
    FullRefAtSome(b, p, q, e);
  }

  /** The `</ref>` found lies past the tag: both texts report a match, and it overruns. */
  lemma {:induction false} FullRefSwappedOver(a: string, b: string, s: nat, p: nat, q: nat, e: nat, e': nat)
    requires p + 4 <= q < s <= e && q + 2 <= |b| && OccursAt(a, "<ref", s)
    requires OccursAt(a, "<ref", p) && OccursAt(b, "<ref", p)
    requires q == RunEnd(AttrText, a, p + 4) && q == RunEnd(AttrText, b, p + 4)
    requires a[q] == '>' && b[q] == '>' && !IsLineTerminator(a[q + 1]) && !IsLineTerminator(b[q + 1])
    requires CloseEnd(a, q + 2) == Some(e) && CloseEnd(b, q + 2) == Some(e')
    ensures FullRefAt(a, p) == Some(Match(p, e + 6, a[p + 4..q], a[q + 1..e]))
    ensures FullRefAt(b, p).Some?
    ensures Overruns(a, FullRefAt(a, p).value)
  {
    FullRefAtSome(a, p, q, e);
    FullRefAtSome(b, p, q, e');
    OverrunsAt(a, Match(p, e + 6, a[p + 4..q], a[q + 1..e]), s);
  }

  /**
   * Scanning from `f` up to and over the tag, when nothing overruns: both texts yield matches
   * that agree one for one, then carry on from the end of their tag.
   */
  lemma {:induction false} ScanSwapped(a: string, b: string, s: nat, ea: nat, eb: nat, f: nat)
    returns (pa: seq<Match>, pb: seq<Match>)
    requires Swapped(a, b, s, ea, eb) && f <= s && NoOverrunFrom(a, f)
    ensures Matches(FullRef, a, f) == pa + Matches(FullRef, a, ea)
    ensures Matches(FullRef, b, f) == pb + Matches(FullRef, b, eb)
    ensures Aligned(pa, pb)
    decreases s - f
  {
    var na := NextMatch(FullRef, a, f);
    if na.Some? && na.value.start < s {
      var m := na.value;
      FirstMatchSwapped(a, b, s, ea, eb, f, m);
      var pa', pb' := ScanSwapped(a, b, s, ea, eb, m.end);
      pa, pb := [m] + pa', [m] + pb';
      ConsConcat(m, Matches(FullRef, a, m.end), pa', Matches(FullRef, a, ea));
      ConsConcat(m, Matches(FullRef, b, m.end), pb', Matches(FullRef, b, eb));
      AlignedCons(m, pa', pb');
    } else {
      NoMatchSwapped(a, b, s, ea, eb, f);
      pa, pb := [], [];
      EmptyConcat(Matches(FullRef, a, ea));
      EmptyConcat(Matches(FullRef, b, eb));
    }
  }

  lemma {:induction false} ConsConcat(m: Match, x: seq<Match>, p: seq<Match>, r: seq<Match>)
    requires x == p + r
    ensures [m] + x == ([m] + p) + r
  {
  }

  lemma {:induction false} EmptyConcat(x: seq<Match>)
    ensures [] + x == x
  {
  }

  lemma {:induction false} AlignedCons(m: Match, pa: seq<Match>, pb: seq<Match>)
    requires Aligned(pa, pb)
    ensures Aligned([m] + pa, [m] + pb)
  {
    forall i | 0 <= i < |pa| + 1
      ensures ([m] + pa)[i].group1 == ([m] + pb)[i].group1 && ([m] + pa)[i].group2 == ([m] + pb)[i].group2
    {
      if i > 0 {
        assert ([m] + pa)[i] == pa[i - 1] && ([m] + pb)[i] == pb[i - 1];
      }
    }
  }

  /** The first full match before the tag is the same in both texts, and the scan goes on after it. */
  lemma {:induction false} FirstMatchSwapped(a: string, b: string, s: nat, ea: nat, eb: nat, f: nat, m: Match)
    requires Swapped(a, b, s, ea, eb) && f <= s && NoOverrunFrom(a, f)
    requires NextMatch(FullRef, a, f) == Some(m) && m.start < s
    ensures m.end <= s && NoOverrunFrom(a, m.end)
    ensures Matches(FullRef, a, f) == [m] + Matches(FullRef, a, m.end)
    ensures Matches(FullRef, b, f) == [m] + Matches(FullRef, b, m.end)
  {
    FirstMatchKept(a, f, m);
    FullRefSwapped(a, b, s, ea, eb, m.start);
    NoneBeforeSwapped(a, b, s, ea, eb, f, m.start);
    NextMatchStep(b, m.start);
  }

  /** A match that does not overrun, followed by the rest of the scan, none of which does. */
  lemma {:induction false} FirstMatchKept(a: string, f: nat, m: Match)
    requires f <= |a| && NoOverrunFrom(a, f) && NextMatch(FullRef, a, f) == Some(m)
    ensures !Overruns(a, m) && NoOverrunFrom(a, m.end)
    ensures Matches(FullRef, a, f) == [m] + Matches(FullRef, a, m.end)
    ensures forall p :: f <= p < m.start ==> FullRefAt(a, p).None?
  {
    var rest := Matches(FullRef, a, m.end);
    assert Matches(FullRef, a, f) == [m] + rest;
    NoOverrunCons(a, Matches(FullRef, a, f), m, rest);
    forall p | f <= p < m.start
      ensures FullRefAt(a, p).None?
    {
      assert MatchAt(FullRef, a, p).None?;
    }
  }

  lemma {:induction false} NoOverrunCons(a: string, ms: seq<Match>, m: Match, rest: seq<Match>)
    requires ms == [m] + rest
    requires forall i :: 0 <= i < |ms| ==> ms[i].start <= ms[i].end <= |a| && !Overruns(a, ms[i])
    ensures m.start <= m.end <= |a| && !Overruns(a, m)
    ensures forall i :: 0 <= i < |rest| ==> rest[i].start <= rest[i].end <= |a| && !Overruns(a, rest[i])
  {
    assert ms[0] == m;
    forall i | 0 <= i < |rest|
      ensures rest[i].start <= rest[i].end <= |a| && !Overruns(a, rest[i])
    {
      assert rest[i] == ms[i + 1];
    }
  }

  /** Where `a` has no full match before the tag, `b` has none either. */
  lemma {:induction false} NoneBeforeSwapped(a: string, b: string, s: nat, ea: nat, eb: nat, f: nat, g: nat)
    requires Swapped(a, b, s, ea, eb) && f <= g < s
    requires forall p :: f <= p < g ==> FullRefAt(a, p).None?
    ensures NextMatch(FullRef, b, f) == NextMatch(FullRef, b, g)
  {
    forall p | f <= p < g
      ensures FullRefAt(b, p).None?
    {
      FullRefSwapped(a, b, s, ea, eb, p);
    }
    NextMatchSkip(b, f, g);
  }

  /** No full match starts between `f` and the end of the tag, in either text. */
  lemma {:induction false} NoMatchSwapped(a: string, b: string, s: nat, ea: nat, eb: nat, f: nat)
    requires Swapped(a, b, s, ea, eb) && f <= s
    requires var na := NextMatch(FullRef, a, f); na.None? || s <= na.value.start
    ensures Matches(FullRef, a, f) == Matches(FullRef, a, ea)
    ensures Matches(FullRef, b, f) == Matches(FullRef, b, eb)
  {
    forall p | f <= p < ea
      ensures FullRefAt(a, p).None?
    {
      if p < s {
        assert MatchAt(FullRef, a, p).None?;
      } else {
        FullRefAtInTag(a, s, ea, p);
      }
    }
    forall p | f <= p < eb
      ensures FullRefAt(b, p).None?
    {
      if p < s {
        assert MatchAt(FullRef, a, p).None?;
        FullRefSwapped(a, b, s, ea, eb, p);
      } else {
        FullRefAtInTag(b, s, eb, p);
      }
    }
    MatchesSkip(a, f, ea);
    MatchesSkip(b, f, eb);
  }

  // ---------------------------------------------------------------- every tag swapped

  /** Each match in `ms` covers a one-line tag of `t`, and its replacement is a one-line tag. */
  predicate TagsReplaced(t: string, ms: seq<Match>, reps: seq<string>)
    requires |reps| == |ms|
  {
    forall i :: 0 <= i < |ms| ==> TagSpan(t, ms[i].start, ms[i].end) && OneLineTag(reps[i])
  }

  lemma {:induction false} TagsReplacedTail(t: string, ms: seq<Match>, reps: seq<string>)
    requires |reps| == |ms| && ms != [] && TagsReplaced(t, ms, reps)
    ensures TagSpan(t, ms[0].start, ms[0].end) && OneLineTag(reps[0])
    ensures TagsReplaced(t, ms[1..], reps[1..])
  {
    forall i | 0 <= i < |ms| - 1
      ensures TagSpan(t, ms[1..][i].start, ms[1..][i].end) && OneLineTag(reps[1..][i])
    {
      assert ms[1..][i] == ms[i + 1] && reps[1..][i] == reps[i + 1];
    }
  }

  /** A tag seen from a suffix of the text is still a tag. */
  lemma {:induction false} TagSpanShift(t: string, u: string, d: nat, s: nat, e: nat, S: nat, E: nat)
    requires SuffixAt(t, u, d) && s <= e <= |u| && S == s + d && E == e + d && TagSpan(t, S, E)
    ensures TagSpan(u, s, e)
  {
    OccursShift(t, u, d, "<ref", s, S);
    assert u[e - 2] == t[E - 2] && u[e - 1] == t[E - 1];
  }

  /** A tag written at `s` of a text is a tag span there. */
  lemma {:induction false} TagSpanPlaced(b: string, x: string, s: nat)
    requires OneLineTag(x) && s + |x| <= |b| && b[s..s + |x|] == x
    ensures TagSpan(b, s, s + |x|)
  {
    assert b[s..s + 4] == x[..4];
    forall i | s <= i < s + |x|
      ensures b[i] == x[i - s]
    {
      assert b[s..s + |x|][i - s] == b[i];
    }
  }

  /** The pieces of a splice at its first match, each a slice or a suffix of the whole. */
  lemma {:induction false} SpliceStep(t: string, from: nat, ms: seq<Match>, reps: seq<string>, b: string, v: string)
    requires from <= |t| && Ordered(ms, from, |t|) && |reps| == |ms| && ms != []
    requires b == Splice(t, from, ms, reps)
    requires Ordered(ms[1..], ms[0].end, |t|) && v == Splice(t, ms[0].end, ms[1..], reps[1..])
    ensures var s := ms[0].start - from;
      && SamePrefix(t[from..], b, s)
      && s + |reps[0]| <= |b| && b[s..s + |reps[0]|] == reps[0]
      && SuffixAt(b, v, s + |reps[0]|)
  {
    var s := ms[0].start - from;
    var w := t[from..ms[0].start];
    assert b == w + reps[0] + v;
    forall i | 0 <= i < s
      ensures t[from..][i] == b[i]
    {
      assert b[i] == w[i];
    }
    assert b[s..s + |reps[0]|] == reps[0];
  }

  lemma {:induction false} SuffixOfSuffix(t: string, from: nat, e: nat)
    requires from <= e <= |t|
    ensures SuffixAt(t[from..], t[e..], e - from)
  {
  }

  lemma {:induction false} SuffixWhole(t: string, d: nat)
    requires d <= |t|
    ensures SuffixAt(t, t[d..], d)
  {
  }

  /**
   * Two texts that agree up to `s`, where one holds a one-line tag and the other the one-line tag
   * `x`, and whose rests after the tags agree on whether a `</ref>` closes their first line.
   */
  lemma {:induction false} SwappedPieces(a: string, b: string, u: string, v: string, x: string, s: nat, ea: nat, eb: nat)
    requires SamePrefix(a, b, s) && TagSpan(a, s, ea) && OneLineTag(x)
    requires eb == s + |x| <= |b| && b[s..eb] == x
    requires SuffixAt(a, u, ea) && SuffixAt(b, v, eb)
    requires CloseEnd(u, 0).Some? <==> CloseEnd(v, 0).Some?
    ensures Swapped(a, b, s, ea, eb)
  {
    TagSpanPlaced(b, x, s);
    CloseEndShift(a, u, ea, 0, ea);
    CloseEndShift(b, v, eb, 0, eb);
  }

  /** The first tag of a splice of one-line tags, and the rest of the text and splice after it. */
  lemma {:induction false} SpliceSwapped(t: string, from: nat, ms: seq<Match>, reps: seq<string>, b: string, v: string,
                                         s: nat, ea: nat, eb: nat)
    requires from <= |t| && Ordered(ms, from, |t|) && |reps| == |ms| && ms != [] && TagsReplaced(t, ms, reps)
    requires Ordered(ms[1..], ms[0].end, |t|)
    requires b == Splice(t, from, ms, reps) && v == Splice(t, ms[0].end, ms[1..], reps[1..])
    requires s + from == ms[0].start && ea + from == ms[0].end && eb == s + |reps[0]|
    requires CloseEnd(t[ms[0].end..], 0).Some? <==> CloseEnd(v, 0).Some?
    ensures Swapped(t[from..], b, s, ea, eb)
    ensures SuffixAt(t[from..], t[ms[0].end..], ea) && SuffixAt(b, v, eb)
    ensures CloseEnd(t[from..], 0).Some? <==> CloseEnd(b, 0).Some?
    ensures NoOverrunFrom(t[from..], 0) ==> NoOverrunFrom(t[ms[0].end..], 0)
    ensures NoOverrunFrom(t[from..], 0) && Aligned(Matches(FullRef, t[ms[0].end..], 0), Matches(FullRef, v, 0)) ==>
      Aligned(Matches(FullRef, t[from..], 0), Matches(FullRef, b, 0))
  {
    var a, u := t[from..], t[ms[0].end..];
    TagsReplacedTail(t, ms, reps);
    SpliceStep(t, from, ms, reps, b, v);
    SuffixOfSuffix(t, from, ms[0].end);
    SuffixWhole(t, from);
    TagSpanShift(t, a, from, s, ea, ms[0].start, ms[0].end);
    SwappedPieces(a, b, u, v, reps[0], s, ea, eb);
    CloseEndSwapped(a, b, s, ea, eb, 0);
    if NoOverrunFrom(a, 0) {
      AlignedAcrossTag(a, b, u, v, s, ea, eb);
    }
  }

  /** A `</ref>` follows on the first line exactly when it does after the splice. */
  lemma {:induction false} CloseEndSplice(t: string, from: nat, ms: seq<Match>, reps: seq<string>)
    requires from <= |t| && Ordered(ms, from, |t|) && |reps| == |ms| && TagsReplaced(t, ms, reps)
    ensures CloseEnd(t[from..], 0).Some? <==> CloseEnd(Splice(t, from, ms, reps), 0).Some?
    decreases |ms|
  {
    if ms == [] {
      assert Splice(t, from, ms, reps) == t[from..];
    } else {
      OrderedTail(ms, from, |t|);
      TagsReplacedTail(t, ms, reps);
      CloseEndSplice(t, ms[0].end, ms[1..], reps[1..]);
      var b, v := Splice(t, from, ms, reps), Splice(t, ms[0].end, ms[1..], reps[1..]);
      var s: nat, ea: nat := ms[0].start - from, ms[0].end - from;
      SpliceSwapped(t, from, ms, reps, b, v, s, ea, s + |reps[0]|);
    }
  }

  /** Matches that agree one for one still do with the matches after them moved along. */
  lemma {:induction false} AlignedAppend(pa: seq<Match>, pb: seq<Match>, x: seq<Match>, y: seq<Match>, da: nat, db: nat)
    requires Aligned(pa, pb) && Aligned(x, y)
    ensures Aligned(pa + ShiftedAll(x, da), pb + ShiftedAll(y, db))
  {
    var ra, rb := pa + ShiftedAll(x, da), pb + ShiftedAll(y, db);
    forall i | 0 <= i < |ra|
      ensures ra[i].group1 == rb[i].group1 && ra[i].group2 == rb[i].group2
    {
      if i >= |pa| {
        assert ra[i] == Shifted(x[i - |pa|], da) && rb[i] == Shifted(y[i - |pa|], db);
      }
    }
  }

  /** The matches after the tag, seen from the rest of the text, do not overrun either. */
  lemma {:induction false} NoOverrunAfter(a: string, u: string, ea: nat, pa: seq<Match>, ms: seq<Match>, rest: seq<Match>, x: seq<Match>)
    requires SuffixAt(a, u, ea) && ms == pa + rest && rest == ShiftedAll(x, ea)
    requires forall i :: 0 <= i < |ms| ==> ms[i].start <= ms[i].end <= |a| && !Overruns(a, ms[i])
    requires forall i :: 0 <= i < |x| ==> x[i].start <= x[i].end <= |u|
    ensures forall i :: 0 <= i < |x| ==> !Overruns(u, x[i])
  {
    forall i | 0 <= i < |x|
      ensures !Overruns(u, x[i])
    {
      assert ms[|pa| + i] == Shifted(x[i], ea);
      OverrunsShift(a, u, ea, x[i]);
    }
  }

  /**
   * With a one-line tag swapped at `s`: nothing after the tag overruns, and if the matches after
   * the two tags agree one for one, so do all the matches of the two texts.
   */
  lemma {:induction false} AlignedAcrossTag(a: string, b: string, u: string, v: string, s: nat, ea: nat, eb: nat)
    requires Swapped(a, b, s, ea, eb) && SuffixAt(a, u, ea) && SuffixAt(b, v, eb) && NoOverrunFrom(a, 0)
    ensures NoOverrunFrom(u, 0)
    ensures Aligned(Matches(FullRef, u, 0), Matches(FullRef, v, 0)) ==>
      Aligned(Matches(FullRef, a, 0), Matches(FullRef, b, 0))
  {
    var pa, pb := ScanSwapped(a, b, s, ea, eb, 0);
    var x, y := Matches(FullRef, u, 0), Matches(FullRef, v, 0);
    MatchesShiftFrom(a, u, ea, 0, ea);
    MatchesShiftFrom(b, v, eb, 0, eb);
    NoOverrunAfter(a, u, ea, pa, Matches(FullRef, a, 0), Matches(FullRef, a, ea), x);
    if Aligned(x, y) {
      AlignedAppend(pa, pb, x, y, ea, eb);
    }
  }

  lemma {:induction false} AlignedSame(ms: seq<Match>)
    ensures Aligned(ms, ms)
  {
  }

  /**
   * Swapping one-line tags for one-line tags leaves the full matches as they were, one for one,
   * as long as none of them overruns.
   */
  lemma {:induction false} SpliceKeepsFullRefs(t: string, from: nat, ms: seq<Match>, reps: seq<string>)
    requires from <= |t| && Ordered(ms, from, |t|) && |reps| == |ms| && TagsReplaced(t, ms, reps)
    requires NoOverrunFrom(t[from..], 0)
    ensures Aligned(Matches(FullRef, t[from..], 0), Matches(FullRef, Splice(t, from, ms, reps), 0))
    decreases |ms|
  {
    if ms == [] {
      assert Splice(t, from, ms, reps) == t[from..];
      AlignedSame(Matches(FullRef, t[from..], 0));
    } else {
      OrderedTail(ms, from, |t|);
      TagsReplacedTail(t, ms, reps);
      CloseEndSplice(t, ms[0].end, ms[1..], reps[1..]);
      var b, v := Splice(t, from, ms, reps), Splice(t, ms[0].end, ms[1..], reps[1..]);
      var s: nat, ea: nat := ms[0].start - from, ms[0].end - from;
      SpliceSwapped(t, from, ms, reps, b, v, s, ea, s + |reps[0]|);
      SpliceKeepsFullRefs(t, ms[0].end, ms[1..], reps[1..]);
    }
  }

  /** The text of a tag span is a one-line tag. */
  lemma {:induction false} TagSpanText(t: string, s: nat, e: nat)
    requires TagSpan(t, s, e)
    ensures OneLineTag(t[s..e])
  {
    var x := t[s..e];
    assert x[..4] == t[s..s + 4];
    assert forall i :: 0 <= i < |x| ==> x[i] == t[s + i];
  }
}

