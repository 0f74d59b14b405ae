/**
 * The four global regular expressions of deduplicateRefs.js, as hand-written matchers that
 * keep the engine's match boundaries: each pattern is tried at every position from the
 * previous match's end, the first position that matches wins, greedy runs take as much as
 * they can, lazy runs as little, and `.` stops at a line terminator.
 *
 *   QuotedAttr  /(\w+)=["'](.*?)["']/g
 *   BareAttr    /(\w+)=(\S+)/g
 *   FullRef     /<ref([^>/]*)>(.+?)<\/ref>/g
 *   ShortRef    /<ref([^>/]*)\/>/g
 *
 * `String.prototype.replace` with a callback is modelled by `Matches` (the list of matches the
 * engine reports, left to right) and `Splice` (the text with each match replaced by the
 * callback's value).
 */
module Patterns {
  import opened Wrappers
  import opened Text

  /** One match: the span [start, end) and the two capture groups ("" when a pattern has one). */
  datatype Match = Match(start: nat, end: nat, group1: string, group2: string)

  datatype Pattern = QuotedAttr | BareAttr | FullRef | ShortRef

  /** The character classes the patterns repeat: `\w`, `\S`, `[^>/]` and `.`. */
  datatype CharClass = Word | NonSpace | AttrText | NotLineEnd

  predicate InClass(k: CharClass, c: char)
  {
    match k
    case Word => IsWordChar(c)
    case NonSpace => !IsSpace(c)
    case AttrText => c != '>' && c != '/'
    case NotLineEnd => !IsLineTerminator(c)
  }

  predicate AllIn(k: CharClass, s: string)
  {
    forall i :: 0 <= i < |s| ==> InClass(k, s[i])
  }

  predicate IsQuote(c: char)
  {
    c == '"' || c == '\''
  }

  /** Where a greedy run of class `k` starting at `p` ends: the run is as long as it can be. */
  function RunEnd(k: CharClass, t: string, p: nat): (q: nat)
    requires p <= |t|
    ensures p <= q <= |t|
    ensures AllIn(k, t[p..q])
    ensures q == |t| || !InClass(k, t[q])
    decreases |t| - p
  {
    if p < |t| && InClass(k, t[p]) then
      var q := RunEnd(k, t, p + 1);
      assert t[p..q] == [t[p]] + t[p + 1..q];
      q
    else p
  }

  /** Where the lazy `.*?["']` stops: the first quote at or after `v`, unless a line terminator comes first. */
  function QuoteEnd(t: string, v: nat): (r: Option<nat>)
    requires v <= |t|
    ensures r.Some? ==> v <= r.value < |t| && IsQuote(t[r.value])
    ensures r.Some? ==> forall i :: v <= i < r.value ==> !IsQuote(t[i]) && !IsLineTerminator(t[i])
    decreases |t| - v
  {
    if v == |t| || IsLineTerminator(t[v]) then None
    else if IsQuote(t[v]) then Some(v)
    else QuoteEnd(t, v + 1)
  }

  /** Where the lazy `.+?<\/ref>` stops, the first character already consumed: the first `</ref>` at or after `e` with no line terminator before it. */
  function CloseEnd(t: string, e: nat): (r: Option<nat>)
    requires e <= |t|
    ensures r.Some? ==> e <= r.value && OccursAt(t, "</ref>", r.value)
    ensures r.Some? ==> AllIn(NotLineEnd, t[e..r.value])
    ensures r.Some? ==> forall i :: e <= i < r.value ==> !OccursAt(t, "</ref>", i)
    decreases |t| - e
  {
    if OccursAt(t, "</ref>", e) then Some(e)
    else if e < |t| && !IsLineTerminator(t[e]) then
      var r := CloseEnd(t, e + 1);
      assert r.Some? ==> t[e..r.value] == [t[e]] + t[e + 1..r.value];
      r
    else None
  }

  /** `(\w+)=["'](.*?)["']` tried at `p`. */
  function QuotedAttrAt(t: string, p: nat): (r: Option<Match>)
    requires p <= |t|
    ensures r.Some? ==> r.value.start == p < r.value.end <= |t|
  {
    var q := RunEnd(Word, t, p);
    if q == p || q + 1 >= |t| || t[q] != '=' || !IsQuote(t[q + 1]) then None
    else
      match QuoteEnd(t, q + 2)
      case None => None
      case Some(e) => Some(Match(p, e + 1, t[p..q], t[q + 2..e]))
  }

  /** `(\w+)=(\S+)` tried at `p`. */
  function BareAttrAt(t: string, p: nat): (r: Option<Match>)
    requires p <= |t|
    ensures r.Some? ==> r.value.start == p < r.value.end <= |t|
  {
    var q := RunEnd(Word, t, p);
    if q == p || q >= |t| || t[q] != '=' then None
    else
      var e := RunEnd(NonSpace, t, q + 1);
      if e == q + 1 then None else Some(Match(p, e, t[p..q], t[q + 1..e]))
  }

  /** `<ref([^>/]*)>(.+?)<\/ref>` tried at `p`: the content is the shortest that reaches a `</ref>`. */
  function FullRefAt(t: string, p: nat): (r: Option<Match>)
    requires p <= |t|
    ensures r.Some? ==> r.value.start == p < r.value.end <= |t|
  {
    if !OccursAt(t, "<ref", p) then None
    else
      var q := RunEnd(AttrText, t, p + 4);
      if q + 1 >= |t| || t[q] != '>' || IsLineTerminator(t[q + 1]) then None
      else
        match CloseEnd(t, q + 2)
        case None => None
        case Some(e) =>
          FullRefText(t, p, q, e);
          Some(Match(p, e + 6, t[p + 4..q], t[q + 1..e]))
  }

  lemma {:induction false} FullRefText(t: string, p: nat, q: nat, e: nat)
    requires p + 4 <= q && q + 2 <= e && e + 6 <= |t|
    requires OccursAt(t, "<ref", p) && t[q] == '>' && OccursAt(t, "</ref>", e)
    requires !IsLineTerminator(t[q + 1]) && AllIn(NotLineEnd, t[q + 2..e])
    ensures t[p..e + 6] == "<ref" + t[p + 4..q] + ">" + t[q + 1..e] + "</ref>"
    ensures AllIn(NotLineEnd, t[q + 1..e])
  {
    assert t[p..e + 6] == t[p..p + 4] + t[p + 4..q] + [t[q]] + t[q + 1..e] + t[e..e + 6];
    assert t[q + 1..e] == [t[q + 1]] + t[q + 2..e];
  }

  /** `<ref([^>/]*)\/>` tried at `p`. */
  function ShortRefAt(t: string, p: nat): (r: Option<Match>)
    requires p <= |t|
    ensures r.Some? ==> r.value.start == p < r.value.end <= |t|
  {
    if !OccursAt(t, "<ref", p) then None
    else
      var q := RunEnd(AttrText, t, p + 4);
      if q + 1 < |t| && t[q] == '/' && t[q + 1] == '>' then
        assert t[p..q + 2] == t[p..p + 4] + t[p + 4..q] + t[q..q + 2];
        Some(Match(p, q + 2, t[p + 4..q], ""))
      else None
  }

  /** A `(\w+)=["'](.*?)["']` match: a word, `=`, a quote, a value free of quotes and line terminators, a quote. */
  lemma {:induction false} QuotedAttrShape(t: string, p: nat, m: Match)
    requires p <= |t| && QuotedAttrAt(t, p) == Some(m)
    ensures m.start == p && m.end == p + |m.group1| + |m.group2| + 3 <= |t|
    ensures m.group1 != [] && AllIn(Word, m.group1) && t[p..p + |m.group1|] == m.group1
    ensures t[p + |m.group1|] == '=' && IsQuote(t[p + |m.group1| + 1])
    ensures t[p + |m.group1| + 2..m.end - 1] == m.group2 && IsQuote(t[m.end - 1])
    ensures forall i :: 0 <= i < |m.group2| ==> !IsQuote(m.group2[i]) && !IsLineTerminator(m.group2[i])
  {
    var q := RunEnd(Word, t, p);
    var e := QuoteEnd(t, q + 2).value;
    assert m.group2 == t[q + 2..e];
  }

  /** A `(\w+)=(\S+)` match: a word, `=`, and the longest run of non-space characters after it. */
  lemma {:induction false} BareAttrShape(t: string, p: nat, m: Match)
    requires p <= |t| && BareAttrAt(t, p) == Some(m)
    ensures m.start == p && m.end == p + |m.group1| + 1 + |m.group2| <= |t|
    ensures m.group1 != [] && AllIn(Word, m.group1) && t[p..p + |m.group1|] == m.group1
    ensures t[p + |m.group1|] == '='
    ensures m.group2 != [] && AllIn(NonSpace, m.group2) && t[p + |m.group1| + 1..m.end] == m.group2
    ensures m.end == |t| || IsSpace(t[m.end])
  {
  }

  /** A full ref match: `<ref`, attribute text, `>`, one-line content, and the first `</ref>` after it. */
  lemma {:induction false} FullRefShape(t: string, p: nat, m: Match)
    requires p <= |t| && FullRefAt(t, p) == Some(m)
    ensures m.start == p < m.end <= |t|
    ensures t[p..m.end] == "<ref" + m.group1 + ">" + m.group2 + "</ref>"
    ensures AllIn(AttrText, m.group1) && m.group2 != [] && AllIn(NotLineEnd, m.group2)
    ensures forall i :: p + |m.group1| + 6 <= i < m.end - 6 ==> !OccursAt(t, "</ref>", i)
  {
    var q := RunEnd(AttrText, t, p + 4);
    var e := CloseEnd(t, q + 2).value;
    FullRefText(t, p, q, e);
  }

  /** A short ref match: `<ref`, attribute text, `/>`. */
  lemma {:induction false} ShortRefShape(t: string, p: nat, m: Match)
    requires p <= |t| && ShortRefAt(t, p) == Some(m)
    ensures m.start == p < m.end <= |t|
    ensures t[p..m.end] == "<ref" + m.group1 + "/>"
    ensures AllIn(AttrText, m.group1) && m.group2 == ""
  {
  }

  /** The pattern tried at one position. Every match is non-empty. */
  function MatchAt(pat: Pattern, t: string, p: nat): (r: Option<Match>)
    requires p <= |t|
    ensures r.Some? ==> r.value.start == p < r.value.end <= |t|
  {
    match pat
    case QuotedAttr => QuotedAttrAt(t, p)
    case BareAttr => BareAttrAt(t, p)
    case FullRef => FullRefAt(t, p)
    case ShortRef => ShortRefAt(t, p)
  }

  /** The leftmost match at or after `from`, as a global regex with `lastIndex == from` finds it. */
  function NextMatch(pat: Pattern, t: string, from: nat): (r: Option<Match>)
    requires from <= |t|
    ensures r.Some? ==> from <= r.value.start < r.value.end <= |t|
    ensures r.Some? ==> MatchAt(pat, t, r.value.start) == r
    ensures forall p :: from <= p <= |t| && (r.None? || p < r.value.start) ==> MatchAt(pat, t, p).None?
    decreases |t| - from
  {
    var here := MatchAt(pat, t, from);
    if here.Some? then here
    else if from == |t| then None
    else NextMatch(pat, t, from + 1)
  }

  /** Matches in order, each starting at or after the end of the one before, within `[from, n)`. */
  predicate Ordered(ms: seq<Match>, from: nat, n: nat)
  {
    && (forall i :: 0 <= i < |ms| ==> ms[i].start < ms[i].end <= n)
    && (|ms| > 0 ==> from <= ms[0].start)
    && (forall i, j :: 0 <= i < j < |ms| ==> ms[i].end <= ms[j].start)
  }

  /** Every match of `pat` the engine reports, scanning from `from` to the end. */
  function Matches(pat: Pattern, t: string, from: nat): (r: seq<Match>)
    requires from <= |t|
    ensures Ordered(r, from, |t|)
    decreases |t| - from
  {
    match NextMatch(pat, t, from)
    case None => []
    case Some(m) => [m] + Matches(pat, t, m.end)
  }

  /** Each reported match is what the pattern matches at its start. */
  lemma {:induction false} MatchesAreMatches(pat: Pattern, t: string, from: nat, i: nat)
    requires from <= |t| && i < |Matches(pat, t, from)|
    ensures var m := Matches(pat, t, from)[i]; MatchAt(pat, t, m.start) == Some(m)
    decreases |t| - from
  {
    var m := NextMatch(pat, t, from).value;
    if i > 0 {
      MatchesAreMatches(pat, t, m.end, i - 1);
    }
  }

  lemma {:induction false} OrderedTail(ms: seq<Match>, from: nat, n: nat)
    requires Ordered(ms, from, n) && ms != []
    ensures ms[0].end <= n && Ordered(ms[1..], ms[0].end, n)
  {
  }

  /** The text of one match (the callback's `all`). */
  function MatchText(t: string, m: Match): string
    requires m.start <= m.end <= |t|
  {
    t[m.start..m.end]
  }

  /** `t[from..]` with every match in `ms` replaced by the string at the same index in `reps`. */
  function Splice(t: string, from: nat, ms: seq<Match>, reps: seq<string>): string
    requires from <= |t| && Ordered(ms, from, |t|) && |reps| == |ms|
    decreases |ms|
  {
    if ms == [] then t[from..]
    else
      OrderedTail(ms, from, |t|);
      t[from..ms[0].start] + reps[0] + Splice(t, ms[0].end, ms[1..], reps[1..])
  }

  /** A callback that gives back each match's own text leaves the text as it was. */
  lemma {:induction false} SpliceIdentity(t: string, from: nat, ms: seq<Match>, reps: seq<string>)
    requires from <= |t| && Ordered(ms, from, |t|) && |reps| == |ms|
    requires forall i :: 0 <= i < |ms| ==> reps[i] == MatchText(t, ms[i])
    ensures Splice(t, from, ms, reps) == t[from..]
    decreases |ms|
  {
    if ms != [] {
      OrderedTail(ms, from, |t|);
      SpliceIdentity(t, ms[0].end, ms[1..], reps[1..]);
      assert t[from..] == t[from..ms[0].start] + t[ms[0].start..ms[0].end] + t[ms[0].end..];
    }
  }

  /** What is left to scan after the first `i` matches: the suffix is ordered from the end of match `i - 1`. */
  lemma {:induction false} OrderedSuffix(ms: seq<Match>, from: nat, n: nat, i: nat)
    requires Ordered(ms, from, n) && i <= |ms|
    ensures Ordered(ms[i..], if i == 0 then from else ms[i - 1].end, n)
    ensures i > 0 ==> from <= ms[i - 1].end <= n
  {
  }

  /** One step of `replace`: the text up to match `i`, its replacement, then the rest. */
  lemma {:induction false} SpliceUnfold(t: string, pos: nat, ms: seq<Match>, reps: seq<string>, i: nat)
    requires pos <= |t| && i < |ms| && |reps| == |ms| && Ordered(ms[i..], pos, |t|)
    ensures pos <= ms[i].start < ms[i].end <= |t| && Ordered(ms[i + 1..], ms[i].end, |t|)
    ensures Splice(t, pos, ms[i..], reps[i..])
         == t[pos..ms[i].start] + reps[i] + Splice(t, ms[i].end, ms[i + 1..], reps[i + 1..])
  {
    assert ms[i..][0] == ms[i] && ms[i..][1..] == ms[i + 1..];
    assert reps[i..][0] == reps[i] && reps[i..][1..] == reps[i + 1..];
  }

  /** The spliced text ends with the last match's replacement and the text after that match. */
  lemma {:induction false} SpliceEnds(t: string, from: nat, ms: seq<Match>, reps: seq<string>)
    requires from <= |t| && Ordered(ms, from, |t|) && |reps| == |ms| && ms != []
    ensures var tail := reps[|ms| - 1] + t[ms[|ms| - 1].end..];
      var s := Splice(t, from, ms, reps);
      |tail| <= |s| && s[|s| - |tail|..] == tail
    decreases |ms|
  {
    OrderedTail(ms, from, |t|);
    if |ms| == 1 {
      assert ms[1..] == [];
    } else {
      SpliceEnds(t, ms[0].end, ms[1..], reps[1..]);
      assert ms[1..][|ms| - 2] == ms[|ms| - 1] && reps[1..][|ms| - 2] == reps[|ms| - 1];
    }
  }
}
