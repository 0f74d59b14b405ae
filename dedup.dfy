/**
 * deduplicateRefs: three `replace` passes over the wikitext. The first registers every
 * non-empty ref (and throws when a match swallowed a second `<ref`), the second points short
 * refs whose name was replaced at the name of the winner, the third rewrites the members of
 * duplicate groups, counting the full refs it meets to ask `isdup` about each.
 */
module Dedup {
  import opened Wrappers
  import opened Text
  import opened Patterns
  import opened Attributes
  import opened Normalize
  import opened RefGroups
  import opened Registry
  import opened Alignment
  import opened TagNames

  // ---------------------------------------------------------------- pass 1: gather

  /** The first match at or after `i` that overruns, or `|ms|` when none does. */
  function FirstOverrun(t: string, ms: seq<Match>, i: nat): (j: nat)
    requires Ordered(ms, 0, |t|) && i <= |ms|
    ensures i <= j <= |ms|
    ensures forall k :: i <= k < j ==> !Overruns(t, ms[k])
    ensures j < |ms| ==> Overruns(t, ms[j])
    decreases |ms| - i
  {
    if i == |ms| then |ms|
    else if Overruns(t, ms[i]) then i
    else FirstOverrun(t, ms, i + 1)
  }

  /** The ref the Ref constructor makes of each full match. */
  function Raw(ms: seq<Match>): (raw: seq<Ref>)
    ensures |raw| == |ms|
    decreases |ms|
  {
    if ms == [] then []
    else
      var last := ms[|ms| - 1];
      Raw(ms[..|ms| - 1]) + [NewRef(last.group1, last.group2)]
  }

  lemma {:induction false} RawAt(ms: seq<Match>, i: nat)
    requires i < |ms|
    ensures Raw(ms)[i] == NewRef(ms[i].group1, ms[i].group2)
    decreases |ms|
  {
    if i < |ms| - 1 {
      var before := ms[..|ms| - 1];
      RawAt(before, i);
      assert before[i] == ms[i];
      assert Raw(ms)[i] == Raw(before)[i];
    }
  }

  /** No ref is marked first or duplicate before it is added. */
  lemma {:induction false} RawUnmarked(ms: seq<Match>)
    ensures Unmarked(Raw(ms))
  {
    forall i | 0 <= i < |ms| ensures !Raw(ms)[i].first && !Raw(ms)[i].duplicate {
      RawAt(ms, i);
    }
  }

  /** The refs `add` holds after the first `n` full matches. */
  function Registered(ms: seq<Match>, n: nat): seq<Ref>
    requires n <= |ms|
  {
    AddAll(Raw(ms), n)
  }

  // ---------------------------------------------------------------- pass 2: short refs

  /** `<ref name="name" />`, the form both later passes write. */
  function ShortTag(name: string): string
  {
    "<ref name=\"" + name + "\" />"
  }

  /** The callback of pass 2: a named short ref whose name finalize replaced points at the winner. */
  function ShortRep(t: string, m: Match, nameMap: map<string, string>): string
    requires m.start <= m.end <= |t|
  {
    var r := NewRef(m.group1, "");
    if !r.skip && r.name != "" && r.name in nameMap then ShortTag(nameMap[r.name]) else MatchText(t, m)
  }

  function ShortReps(t: string, ms: seq<Match>, nameMap: map<string, string>): (reps: seq<string>)
    requires Ordered(ms, 0, |t|)
    ensures |reps| == |ms|
  {
    seq(|ms|, i requires 0 <= i < |ms| => ShortRep(t, ms[i], nameMap))
  }

  /** The text after pass 2. */
  function PointShortRefs(t: string, nameMap: map<string, string>): string
  {
    var ms := Matches(ShortRef, t, 0);
    Splice(t, 0, ms, ShortReps(t, ms, nameMap))
  }

  // ---------------------------------------------------------------- pass 3: duplicates

  /** `<ref name="name">content</ref>`, what the first ref of a duplicate group becomes. */
  function FullTag(name: string, content: string): string
  {
    "<ref name=\"" + name + "\">" + content + "</ref>"
  }

  /** The callback of pass 3 given what `isdup` answered. */
  function FullRep(t: string, m: Match, a: DupAnswer): string
    requires m.start <= m.end <= |t|
  {
    match a
    case Dup(r) => if r.first then FullTag(r.name, m.group2) else ShortTag(r.name)
    case _ => MatchText(t, m)
  }

  /** Pass 3 asks `isdup` with the number of full matches met so far. */
  function FullReps(t: string, ms: seq<Match>, rs: seq<Ref>): (reps: seq<string>)
    requires Ordered(ms, 0, |t|)
    ensures |reps| == |ms|
  {
    seq(|ms|, i requires 0 <= i < |ms| => FullRep(t, ms[i], DupAt(rs, i, ms[i].group2)))
  }

  /** The text after pass 3. */
  function RewriteDuplicates(t: string, rs: seq<Ref>): string
  {
    var ms := Matches(FullRef, t, 0);
    Splice(t, 0, ms, FullReps(t, ms, rs))
  }

  // ---------------------------------------------------------------- the three passes

  /** No full match of `text` overruns. */
  predicate NoneOverrun(text: string)
  {
    var fulls := Matches(FullRef, text, 0);
    forall i :: 0 <= i < |fulls| ==> !Overruns(text, fulls[i])
  }

  /** The message pass 1 throws: there is one exactly when some full match overruns. */
  function Thrown(text: string): (r: Option<string>)
    ensures r.None? <==> NoneOverrun(text)
  {
    var fulls := Matches(FullRef, text, 0);
    var bad := FirstOverrun(text, fulls, 0);
    if bad < |fulls| then
      assert Overruns(text, fulls[bad]);
      Some("invalid match: " + MatchText(text, fulls[bad]))
    else None
  }

  /** The thrown message quotes the first full match that overruns. */
  lemma {:induction false} ThrownQuotesFirst(text: string, fulls: seq<Match>)
    requires fulls == Matches(FullRef, text, 0) && Thrown(text).Some?
    ensures exists i :: (0 <= i < |fulls| && Overruns(text, fulls[i])
      && (forall j :: 0 <= j < i ==> !Overruns(text, fulls[j]))
      && Thrown(text).value == "invalid match: " + MatchText(text, fulls[i]))
  {
    var bad := FirstOverrun(text, fulls, 0);
    assert Overruns(text, fulls[bad]);
  }

  /** Passes 2 and 3, once pass 1 has handed `add` the refs `raw` of the full matches in order. */
  function Rewritten(text: string, raw: seq<Ref>): string
  {
    var added := AddAll(raw, |raw|);
    RewriteDuplicates(PointShortRefs(text, Renamed(added, map[])), Finalized(added))
  }

  /** deduplicateRefs: the thrown message, or the text after the three passes. */
  function Deduplicate(text: string): Result<string, string>
  {
    match Thrown(text)
    case Some(message) => Failure(message)
    case None => Success(Rewritten(text, Raw(Matches(FullRef, text, 0))))
  }

  // ---------------------------------------------------------------- pass 3 as evidently intended

  /**
   * Pass 3 with the counter advanced only for the refs `add` kept, so that it indexes the
   * registry, and with skipped refs left as they are.
   */
  function IntendedReps(t: string, ms: seq<Match>, raw: seq<Ref>, rs: seq<Ref>): (reps: seq<string>)
    requires Ordered(ms, 0, |t|) && |raw| == |ms|
    ensures |reps| == |ms|
  {
    seq(|ms|, i requires 0 <= i < |ms| =>
      if !raw[i].skip then FullRep(t, ms[i], DupAt(rs, KeptCount(raw, i), ms[i].group2))
      else MatchText(t, ms[i]))
  }

  function RewriteDuplicatesIntended(t: string, rs: seq<Ref>): string
  {
    var ms := Matches(FullRef, t, 0);
    Splice(t, 0, ms, IntendedReps(t, ms, Raw(ms), rs))
  }

  /** Passes 2 and 3 with the corrected pass 3. */
  function RewrittenIntended(text: string, raw: seq<Ref>): string
  {
    var added := AddAll(raw, |raw|);
    RewriteDuplicatesIntended(PointShortRefs(text, Renamed(added, map[])), Finalized(added))
  }

  /** deduplicateRefs with the corrected pass 3: it throws exactly when the source does. */
  function DeduplicateIntended(text: string): Result<string, string>
  {
    match Thrown(text)
    case Some(message) => Failure(message)
    case None => Success(RewrittenIntended(text, Raw(Matches(FullRef, text, 0))))
  }

  /** One step of a `replace` pass: the text before match `i`, then its replacement. */
  method Advance(t: string, ms: seq<Match>, ghost reps: seq<string>, i: nat, rep: string,
                 out: string, pos: nat, ghost whole: string)
    returns (out': string, pos': nat)
    requires i < |ms| && |reps| == |ms| && rep == reps[i]
    requires pos <= |t| && Ordered(ms[i..], pos, |t|)
    requires whole == out + Splice(t, pos, ms[i..], reps[i..])
    ensures pos' <= |t| && Ordered(ms[i + 1..], pos', |t|)
    ensures whole == out' + Splice(t, pos', ms[i + 1..], reps[i + 1..])
  {
    SpliceUnfold(t, pos, ms, reps, i);
    out' := out + t[pos..ms[i].start] + rep;
    pos' := ms[i].end;
  }

  /** The text a `replace` pass returns once every match is done. */
  method Finish(t: string, ms: seq<Match>, ghost reps: seq<string>, out: string, pos: nat, ghost whole: string)
    returns (result: string)
    requires |reps| == |ms| && pos <= |t| && Ordered(ms[|ms|..], pos, |t|)
    requires whole == out + Splice(t, pos, ms[|ms|..], reps[|ms|..])
    ensures result == whole
  {
    assert ms[|ms|..] == [];
    result := out + t[pos..];
  }

  /** Pass 1: every full match is checked, turned into a ref and added. */
  method Gather(text: string, fulls: seq<Match>) returns (refs: Refs, bad: Option<string>)
    requires fulls == Matches(FullRef, text, 0)
    ensures fresh(refs) && refs.Valid() && refs.nameMap == map[]
    ensures var first := FirstOverrun(text, fulls, 0);
      if first < |fulls| then bad == Some(MatchText(text, fulls[first]))
      else bad == None && refs.refs == Registered(fulls, |fulls|)
  {
    refs := new Refs();
    for i := 0 to |fulls|
      invariant fresh(refs) && refs.Valid() && refs.nameMap == map[]
      invariant refs.refs == Registered(fulls, i)
      invariant FirstOverrun(text, fulls, 0) >= i
    {
      bad := GatherOne(text, fulls, i, refs);
      if bad.Some? {
        return;
      }
    }
    bad := None;
  }

  /** The callback of pass 1 on match `i`: throw on an overrun, otherwise add the ref. */
  method GatherOne(text: string, fulls: seq<Match>, i: nat, refs: Refs) returns (bad: Option<string>)
    requires Ordered(fulls, 0, |text|) && i < |fulls|
    requires refs.Valid() && refs.nameMap == map[] && refs.refs == Registered(fulls, i)
    requires FirstOverrun(text, fulls, 0) >= i
    modifies refs
    ensures refs.Valid() && refs.nameMap == map[]
    ensures bad.Some? ==> FirstOverrun(text, fulls, 0) == i && bad == Some(MatchText(text, fulls[i]))
    ensures bad.None? ==> FirstOverrun(text, fulls, 0) >= i + 1 && refs.refs == Registered(fulls, i + 1)
  {
    var m := fulls[i];
    var all := text[m.start..m.end];
    if 2 <= |all| && IndexOf(all, "<ref", 2) > 0 {
      assert Overruns(text, m);
      return Some(all);
    }
    assert !Overruns(text, fulls[i]);
    var r := CreateRef(m.group1, m.group2);
    RawAt(fulls, i);
    refs.Add(r);
    bad := None;
  }

  /** Pass 2 as the source writes it: each short ref parsed and, when renamed, rewritten. */
  method PointShorts(text: string, nameMap: map<string, string>) returns (result: string)
    ensures result == PointShortRefs(text, nameMap)
  {
    var ms := Matches(ShortRef, text, 0);
    ghost var reps := ShortReps(text, ms, nameMap);
    ghost var whole := Splice(text, 0, ms, reps);
    var out, pos: nat := "", 0;
    for i := 0 to |ms|
      invariant pos <= |text| && Ordered(ms[i..], pos, |text|)
      invariant whole == out + Splice(text, pos, ms[i..], reps[i..])
    {
      var rep := PointShort(text, ms[i], nameMap);
      out, pos := Advance(text, ms, reps, i, rep, out, pos, whole);
    }
    result := Finish(text, ms, reps, out, pos, whole);
  }

  /** The callback of pass 2 on one short ref. */
  method PointShort(text: string, m: Match, nameMap: map<string, string>) returns (rep: string)
    requires m.start <= m.end <= |text|
    ensures rep == ShortRep(text, m, nameMap)
  {
    rep := text[m.start..m.end];
    var r := CreateRef(m.group1, "");
    if !r.skip && r.name != "" && r.name in nameMap {
      rep := ShortTag(nameMap[r.name]);
    }
  }

  /** Pass 3 as the source writes it: `isdup` asked with a counter of the full matches seen. */
  method RewriteDups(text: string, refs: Refs) returns (result: string)
    requires refs.Valid()
    ensures result == RewriteDuplicates(text, refs.refs)
  {
    var ms := Matches(FullRef, text, 0);
    ghost var reps := FullReps(text, ms, refs.refs);
    ghost var whole := Splice(text, 0, ms, reps);
    var out, pos: nat := "", 0;
    var index := 0;
    for i := 0 to |ms|
      invariant pos <= |text| && Ordered(ms[i..], pos, |text|)
      invariant whole == out + Splice(text, pos, ms[i..], reps[i..])
      invariant index == i
    {
      var m := ms[i];
      var answer := refs.IsDup(index, m.group2);
      index := index + 1;
      var rep := text[m.start..m.end];
      if answer.Dup? {
        if answer.ref.first {
          rep := FullTag(answer.ref.name, m.group2);
        } else {
          rep := ShortTag(answer.ref.name);
        }
      }
      out, pos := Advance(text, ms, reps, i, rep, out, pos, whole);
    }
    result := Finish(text, ms, reps, out, pos, whole);
  }

  /** deduplicateRefs: gather, finalize, point the short refs, rewrite the duplicates. */
  method DeduplicateRefs(text: string) returns (result: Result<string, string>)
    ensures result == Deduplicate(text)
  {
    var fulls := Matches(FullRef, text, 0);
    var refs, bad := Gather(text, fulls);
    if bad.Some? {
      return Failure("invalid match: " + bad.value);
    }
    ghost var added := refs.refs;
    refs.Finalize();
    var pointed := PointShorts(text, refs.nameMap);
    var rewritten := RewriteDups(pointed, refs);
    result := Success(rewritten);
  }

  // ---------------------------------------------------------------- what the passes promise

  /** Matches that agree on attributes and content make the same refs. */
  lemma {:induction false} AlignedRaw(a: seq<Match>, b: seq<Match>)
    requires Aligned(a, b)
    ensures Raw(a) == Raw(b)
  {
    forall i | 0 <= i < |a| ensures Raw(a)[i] == Raw(b)[i] {
      RawAt(a, i);
      RawAt(b, i);
    }
  }

  /** A kept ref of a full match holds the match's content (which the pattern never leaves empty). */
  lemma {:induction false} RawContent(ms: seq<Match>, i: nat)
    requires i < |ms| && ms[i].group2 != []
    ensures Raw(ms)[i].content == if Raw(ms)[i].skip then None else Some(ms[i].group2)
    ensures Key(Raw(ms)[i]) == if Raw(ms)[i].skip then "false" else NormalizeContent(ms[i].group2)
  {
    RawAt(ms, i);
    NewRefContent(ms[i].group1, ms[i].group2, Raw(ms)[i]);
  }

  /**
   * Pass 3 as intended, on full refs whose refs `add` was handed in the same order: a skipped
   * ref or one outside every duplicate group is left as it was, the first ref of a duplicate
   * group becomes `<ref name="N">content</ref>` and every later one `<ref name="N" />`, N the
   * group's shared name.
   */
  lemma {:induction false} IntendedRep(t: string, ms: seq<Match>, raw: seq<Ref>, added: seq<Ref>, i: nat)
    requires Ordered(ms, 0, |t|) && |raw| == |ms| && i < |ms| && Unmarked(raw)
    requires !raw[i].skip ==> raw[i].content == Some(ms[i].group2)
    requires added == AddAll(raw, |raw|)
    ensures IntendedReps(t, ms, raw, Finalized(added))[i] ==
      if raw[i].skip || !IsDupKey(KeySeq(added), Key(raw[i])) then MatchText(t, ms[i])
      else if OpensGroup(raw, i) then FullTag(CanonicalName(added, Key(raw[i])), ms[i].group2)
      else ShortTag(CanonicalName(added, Key(raw[i])))
  {
    if !raw[i].skip {
      AddAllFinalAt(raw, |raw|, i, ms[i].group2);
    }
  }

  /** With no skipped full ref, the source's counter and the corrected one agree. */
  lemma {:induction false} AsWrittenAgrees(t: string, ms: seq<Match>, raw: seq<Ref>, rs: seq<Ref>)
    requires Ordered(ms, 0, |t|) && |raw| == |ms| && forall i :: 0 <= i < |raw| ==> !raw[i].skip
    ensures FullReps(t, ms, rs) == IntendedReps(t, ms, raw, rs)
  {
    forall i | 0 <= i < |ms| ensures FullReps(t, ms, rs)[i] == IntendedReps(t, ms, raw, rs)[i] {
      KeptCountAll(raw, i);
    }
  }

  /** Pass 2 with an empty nameMap changes nothing. */
  lemma {:induction false} ShortPassIdentity(text: string)
    ensures PointShortRefs(text, map[]) == text
  {
    var ms := Matches(ShortRef, text, 0);
    SpliceIdentity(text, 0, ms, ShortReps(text, ms, map[]));
  }

  /** Pass 3 changes nothing when no ref is marked duplicate. */
  lemma {:induction false} DupPassIdentity(t: string, rs: seq<Ref>)
    requires forall p :: 0 <= p < |rs| ==> !rs[p].duplicate
    ensures RewriteDuplicates(t, rs) == t && RewriteDuplicatesIntended(t, rs) == t
  {
    var ms := Matches(FullRef, t, 0);
    UnmarkedRepsIdentity(t, ms, Raw(ms), rs);
  }

  /** With no ref marked duplicate, every callback of pass 3 gives back the match's own text. */
  lemma {:induction false} UnmarkedRepsIdentity(t: string, ms: seq<Match>, raw: seq<Ref>, rs: seq<Ref>)
    requires Ordered(ms, 0, |t|) && |raw| == |ms| && forall p :: 0 <= p < |rs| ==> !rs[p].duplicate
    ensures Splice(t, 0, ms, FullReps(t, ms, rs)) == t
    ensures Splice(t, 0, ms, IntendedReps(t, ms, raw, rs)) == t
  {
    SpliceIdentity(t, 0, ms, FullReps(t, ms, rs));
    SpliceIdentity(t, 0, ms, IntendedReps(t, ms, raw, rs));
  }

  /** Passes 2 and 3 give the text back when no two kept refs share a key. */
  lemma {:induction false} DistinctRewrittenUnchanged(text: string, raw: seq<Ref>)
    requires Unmarked(raw) && KeptKeysDistinct(raw, |raw|)
    ensures Rewritten(text, raw) == text && RewrittenIntended(text, raw) == text
  {
    var added := AddAll(raw, |raw|);
    AddAllDistinct(raw, |raw|);
    AddAllUnmarked(raw, |raw|);
    DistinctKeysUntouched(added);
    ShortPassIdentity(text);
    DupPassIdentity(text, added);
  }

  /**
   * Text in which no two kept refs share normalized content comes back unchanged, from the
   * source's passes and from the corrected ones.
   */
  lemma {:induction false} NoDuplicatesUnchanged(text: string, fulls: seq<Match>)
    requires fulls == Matches(FullRef, text, 0)
    requires NoneOverrun(text) && KeptKeysDistinct(Raw(fulls), |fulls|)
    ensures Deduplicate(text) == Success(text) && DeduplicateIntended(text) == Success(text)
  {
    RawUnmarked(fulls);
    DistinctRewrittenUnchanged(text, Raw(fulls));
  }

  /**
   * Pass 2 on a short ref that names `x` and nothing else: when a ref of a duplicate group is
   * named `x` (and no ref of another duplicate group is), it now names the group's shared name.
   */
  lemma {:induction false} ShortRefRepointed(t: string, m: Match, added: seq<Ref>, p: nat)
    requires m.start <= m.end <= |t| && p < |added| && added[p].name != ""
    requires AttributesOf(m.group1) == map["name" := added[p].name]
    requires IsDupKey(KeySeq(added), Key(added[p]))
    requires forall q :: 0 <= q < |added| && added[q].name == added[p].name && IsDupKey(KeySeq(added), Key(added[q])) ==>
      Key(added[q]) == Key(added[p])
    ensures ShortRep(t, m, Renamed(added, map[])) == ShortTag(CanonicalName(added, Key(added[p])))
  {
    RenamedValue(added, map[], p);
  }

  /** A short ref whose name no ref of a duplicate group has is left as it was. */
  lemma {:induction false} ShortRefKept(t: string, m: Match, added: seq<Ref>)
    requires m.start <= m.end <= |t|
    requires forall q :: 0 <= q < |added| && IsDupKey(KeySeq(added), Key(added[q])) ==>
      added[q].name != NewRef(m.group1, "").name
    ensures ShortRep(t, m, Renamed(added, map[])) == MatchText(t, m)
  {
    RenamedDomain(added, map[], NewRef(m.group1, "").name);
  }

  // ---------------------------------------------------------------- the skipped ref in pass 3

  /**
   * Three full refs with the same content, the first skipped by `add`: the source's counter asks
   * about the second and third refs with the registry's entries 1 and 2, and there is no entry 2,
   * so the source rewrites the skipped ref and leaves the third alone.
   */
  lemma {:induction false} SkippedShift(t: string, ms: seq<Match>, raw: seq<Ref>, added: seq<Ref>, name: string)
    requires Ordered(ms, 0, |t|) && |ms| == |raw| == 3 && Unmarked(raw)
    requires raw[0].skip && !raw[1].skip && !raw[2].skip && Key(raw[1]) == Key(raw[2])
    requires ms[0].group2 == ms[1].group2 == ms[2].group2
    requires raw[1].content == Some(ms[1].group2) && raw[2].content == Some(ms[2].group2)
    requires added == AddAll(raw, 3) && name == CanonicalName(added, Key(raw[1]))
    ensures FullReps(t, ms, Finalized(added)) == [FullTag(name, ms[0].group2), ShortTag(name), MatchText(t, ms[2])]
  {
    SkippedShiftAnswers(raw, ms[1].group2);
    var written := FullReps(t, ms, Finalized(added));
    assert written[0] == FullTag(name, ms[0].group2);
    assert written[1] == ShortTag(name);
    assert written[2] == MatchText(t, ms[2]);
  }

  /** The corrected pass 3 on the same three refs leaves the skipped one and shortens the third. */
  lemma {:induction false} SkippedShiftIntended(t: string, ms: seq<Match>, raw: seq<Ref>, added: seq<Ref>, name: string)
    requires Ordered(ms, 0, |t|) && |ms| == |raw| == 3 && Unmarked(raw)
    requires raw[0].skip && !raw[1].skip && !raw[2].skip && Key(raw[1]) == Key(raw[2])
    requires ms[0].group2 == ms[1].group2 == ms[2].group2
    requires raw[1].content == Some(ms[1].group2) && raw[2].content == Some(ms[2].group2)
    requires added == AddAll(raw, 3) && name == CanonicalName(added, Key(raw[1]))
    ensures IntendedReps(t, ms, raw, Finalized(added)) == [MatchText(t, ms[0]), FullTag(name, ms[1].group2), ShortTag(name)]
  {
    SkippedShiftAnswers(raw, ms[1].group2);
    var intended := IntendedReps(t, ms, raw, Finalized(added));
    assert intended[0] == MatchText(t, ms[0]);
    assert intended[1] == FullTag(name, ms[1].group2);
    assert intended[2] == ShortTag(name);
  }

  /**
   * What `isdup` answers on the registry of those three refs: entry 0 is the group's first ref,
   * entry 1 a later one, and there is no entry 2.
   */
  lemma {:induction false} SkippedShiftAnswers(raw: seq<Ref>, c: string)
    requires |raw| == 3 && Unmarked(raw)
    requires raw[0].skip && !raw[1].skip && !raw[2].skip && Key(raw[1]) == Key(raw[2])
    requires raw[1].content == Some(c) && raw[2].content == Some(c)
    ensures KeptCount(raw, 1) == 0 && KeptCount(raw, 2) == 1
    ensures var added := AddAll(raw, 3); var name := CanonicalName(added, Key(raw[1]));
      && DupAt(Finalized(added), 0, c) == Dup(raw[1].(first := true, name := name, duplicate := true))
      && DupAt(Finalized(added), 1, c) == Dup(raw[2].(first := false, name := name, duplicate := true))
      && DupAt(Finalized(added), 2, c) == Undefined
  {
    var added := AddAll(raw, 3);
    var k := Key(raw[1]);
    AddAllLength(raw, 3);
    AddAllAt(raw, 1, 3);
    AddAllAt(raw, 2, 3);
    assert KeptCount(raw, 1) == 0 && KeptCount(raw, 2) == 1;
    assert KeySeq(added) == [k, k];
    assert [k, k][..1] == [k];
    assert Positions([k], k) == [0];
    assert Positions(KeySeq(added), k) == [0, 1];
    AddAllFinalAt(raw, 3, 1, c);
    AddAllFinalAt(raw, 3, 2, c);
    assert OpensGroup(raw, 1) && !OpensGroup(raw, 2);
  }

  /** When the last match runs to the end of the text, the spliced text ends with the last replacement. */
  lemma {:induction false} SpliceEndsWithLast(t: string, ms: seq<Match>, reps: seq<string>)
    requires Ordered(ms, 0, |t|) && |reps| == |ms| && ms != [] && ms[|ms| - 1].end == |t|
    ensures |reps[|ms| - 1]| <= |Splice(t, 0, ms, reps)|
    ensures Splice(t, 0, ms, reps)[|Splice(t, 0, ms, reps)| - |reps[|ms| - 1]|..] == reps[|ms| - 1]
  {
    SpliceEnds(t, 0, ms, reps);
    assert t[ms[|ms| - 1].end..] == [];
    assert reps[|ms| - 1] + [] == reps[|ms| - 1];
  }

  /**
   * When the last match runs to the end of the text, two callbacks whose last replacements differ
   * in their second-to-last character give different texts.
   */
  lemma {:induction false} SplicesDifferAtEnd(t: string, ms: seq<Match>, w: seq<string>, v: seq<string>)
    requires Ordered(ms, 0, |t|) && |w| == |v| == |ms| && ms != [] && ms[|ms| - 1].end == |t|
    requires |w[|ms| - 1]| >= 2 && |v[|ms| - 1]| >= 2
    requires w[|ms| - 1][|w[|ms| - 1]| - 2] != v[|ms| - 1][|v[|ms| - 1]| - 2]
    ensures Splice(t, 0, ms, w) != Splice(t, 0, ms, v)
  {
    var x, y := Splice(t, 0, ms, w), Splice(t, 0, ms, v);
    var a, b := w[|ms| - 1], v[|ms| - 1];
    SpliceEndsWithLast(t, ms, w);
    SpliceEndsWithLast(t, ms, v);
    assert x[|x| - 2] == x[|x| - |a|..][|a| - 2] == a[|a| - 2];
    assert y[|y| - 2] == y[|y| - |b|..][|b| - 2] == b[|b| - 2];
  }

  /** The text of a full ref match ends with `</ref>`. */
  lemma {:induction false} FullRefEndsWithClose(t: string, m: Match)
    requires m.start <= m.end <= |t| && t[m.start..m.end] == "<ref" + m.group1 + ">" + m.group2 + "</ref>"
    ensures |MatchText(t, m)| >= 6 && MatchText(t, m)[|MatchText(t, m)| - 6..] == "</ref>"
  {
    var s := MatchText(t, m);
    assert s[|s| - 6..] == ("<ref" + m.group1 + ">" + m.group2 + "</ref>")[|s| - 6..];
  }

  /** Text without short refs and without an overrunning match is rewritten by pass 3 alone. */
  lemma {:induction false} NoShortRefsPassThree(text: string, fulls: seq<Match>)
    requires fulls == Matches(FullRef, text, 0) && NoneOverrun(text) && Matches(ShortRef, text, 0) == []
    ensures Deduplicate(text) ==
      Success(Splice(text, 0, fulls, FullReps(text, fulls, Finalized(Registered(fulls, |fulls|)))))
    ensures DeduplicateIntended(text) ==
      Success(Splice(text, 0, fulls, IntendedReps(text, fulls, Raw(fulls), Finalized(Registered(fulls, |fulls|)))))
  {
    NoShortRefs(text);
  }

  /** The same three refs, the third running to the end of the text: the two pass-3 outputs differ. */
  lemma {:induction false} SkippedShiftDiffers(t: string, ms: seq<Match>, raw: seq<Ref>)
    requires Ordered(ms, 0, |t|) && |ms| == |raw| == 3 && Unmarked(raw) && ms[2].end == |t|
    requires raw[0].skip && !raw[1].skip && !raw[2].skip && Key(raw[1]) == Key(raw[2])
    requires ms[0].group2 == ms[1].group2 == ms[2].group2
    requires raw[1].content == Some(ms[1].group2) && raw[2].content == Some(ms[2].group2)
    requires t[ms[2].start..ms[2].end] == "<ref" + ms[2].group1 + ">" + ms[2].group2 + "</ref>"
    ensures Splice(t, 0, ms, FullReps(t, ms, Finalized(AddAll(raw, 3)))) !=
            Splice(t, 0, ms, IntendedReps(t, ms, raw, Finalized(AddAll(raw, 3))))
  {
    var added := AddAll(raw, 3);
    var f := Finalized(added);
    var name := CanonicalName(added, Key(raw[1]));
    SkippedShift(t, ms, raw, added, name);
    SkippedShiftIntended(t, ms, raw, added, name);
    var written := FullReps(t, ms, f);
    var intended := IntendedReps(t, ms, raw, f);
    var tail := MatchText(t, ms[2]);
    FullRefEndsWithClose(t, ms[2]);
    assert tail[|tail| - 2] == "</ref>"[4] == 'f';
    var tag := ShortTag(name);
    assert tag[|tag| - 2] == '/';
    assert written[2] == tail && intended[2] == tag;
    SplicesDifferAtEnd(t, ms, written, intended);
  }

  /**
   * The same on a whole text that ends with the third ref: the source's output and the corrected
   * one differ in their last characters, `</ref>` against ` />`.
   */
  lemma {:induction false} SkippedRefShiftsIndex(text: string, fulls: seq<Match>)
    requires fulls == Matches(FullRef, text, 0) && |fulls| == 3 && fulls[2].end == |text|
    requires NoneOverrun(text) && Matches(ShortRef, text, 0) == []
    requires Raw(fulls)[0].skip && !Raw(fulls)[1].skip && !Raw(fulls)[2].skip
    requires fulls[0].group2 == fulls[1].group2 == fulls[2].group2
    ensures Deduplicate(text).Success? && DeduplicateIntended(text).Success?
    ensures Deduplicate(text) != DeduplicateIntended(text)
  {
    var raw := Raw(fulls);
    NoShortRefsPassThree(text, fulls);
    MatchesAreMatches(FullRef, text, 0, 2);
    FullRefShape(text, fulls[2].start, fulls[2]);
    RawUnmarked(fulls);
    RawContent(fulls, 1);
    RawContent(fulls, 2);
    SkippedShiftDiffers(text, fulls, raw);
  }

  /** Without short refs pass 2 changes nothing, whatever the nameMap. */
  lemma {:induction false} NoShortRefs(text: string)
    requires Matches(ShortRef, text, 0) == []
    ensures forall nameMap :: PointShortRefs(text, nameMap) == text
  {
  }

  // ---------------------------------------------------------------- text with short refs

  /** Every short ref of the text sits on one line: its attribute text holds no line terminator. */
  predicate ShortRefsOneLine(text: string)
  {
    var shorts := Matches(ShortRef, text, 0);
    forall i :: 0 <= i < |shorts| ==> AllIn(NotLineEnd, shorts[i].group1)
  }

  /** A short ref on one line is a one-line tag. */
  lemma {:induction false} ShortShapeTag(t: string, p: nat, m: Match)
    requires p <= |t| && ShortRefAt(t, p) == Some(m) && AllIn(NotLineEnd, m.group1)
    ensures TagSpan(t, p, m.end)
  {
    ShortRefShape(t, p, m);
    var x := t[p..m.end];
    assert t[p..p + 4] == x[..4];
    forall j | p + 4 <= j < m.end - 2
      ensures InClass(AttrText, t[j]) && !IsLineTerminator(t[j])
    {
      assert t[j] == x[j - p] == m.group1[j - p - 4];
    }
    assert t[m.end - 2] == x[|x| - 2] && t[m.end - 1] == x[|x| - 1];
  }

  lemma {:induction false} ShortRefTag(text: string, i: nat)
    requires i < |Matches(ShortRef, text, 0)| && AllIn(NotLineEnd, Matches(ShortRef, text, 0)[i].group1)
    ensures var m := Matches(ShortRef, text, 0)[i]; TagSpan(text, m.start, m.end)
  {
    MatchesAreMatches(ShortRef, text, 0, i);
    var m := Matches(ShortRef, text, 0)[i];
    ShortShapeTag(text, m.start, m);
  }

  /** The text of a full match: `<ref`, attributes, `>`, non-empty content, `</ref>`. */
  lemma {:induction false} FullMatchText(t: string, ms: seq<Match>, i: nat)
    requires ms == Matches(FullRef, t, 0) && i < |ms|
    ensures ms[i].start <= ms[i].end <= |t| && ms[i].group2 != []
    ensures MatchText(t, ms[i]) == "<ref" + ms[i].group1 + ">" + ms[i].group2 + "</ref>"
  {
    MatchesAreMatches(FullRef, t, 0, i);
    FullRefShape(t, ms[i].start, ms[i]);
  }

  /** Pass 2 swaps one-line tags for one-line tags, when every name it writes fits in a tag. */
  lemma {:induction false} ShortRepsTags(text: string, nameMap: map<string, string>)
    requires ShortRefsOneLine(text) && ValuesTagText(nameMap)
    ensures var shorts := Matches(ShortRef, text, 0); TagsReplaced(text, shorts, ShortReps(text, shorts, nameMap))
  {
    var shorts := Matches(ShortRef, text, 0);
    var reps := ShortReps(text, shorts, nameMap);
    forall i | 0 <= i < |shorts|
      ensures TagSpan(text, shorts[i].start, shorts[i].end) && OneLineTag(reps[i])
    {
      var m := shorts[i];
      ShortRefTag(text, i);
      var r := NewRef(m.group1, "");
      if !r.skip && r.name != "" && r.name in nameMap {
        ShortTagOneLine(nameMap[r.name]);
      } else {
        TagSpanText(text, m.start, m.end);
      }
    }
  }

  /** Every ref pass 1 makes has a name that fits inside a one-line tag. */
  lemma {:induction false} RawTagText(text: string)
    ensures NamesTagText(Raw(Matches(FullRef, text, 0)))
  {
    var fulls := Matches(FullRef, text, 0);
    forall i | 0 <= i < |fulls|
      ensures TagText(Raw(fulls)[i].name)
    {
      RawAt(fulls, i);
      MatchesAreMatches(FullRef, text, 0, i);
      FullRefShape(text, fulls[i].start, fulls[i]);
      NewRefTagText(fulls[i].group1, fulls[i].group2);
    }
  }

  /**
   * When no full match overruns and every short ref sits on one line, pass 3 finds the full refs
   * pass 1 found, one for one, with the same attributes and content.
   */
  lemma {:induction false} PassesAligned(text: string)
    requires NoneOverrun(text) && ShortRefsOneLine(text)
    ensures var fulls := Matches(FullRef, text, 0);
      var nameMap := Renamed(Registered(fulls, |fulls|), map[]);
      Aligned(fulls, Matches(FullRef, PointShortRefs(text, nameMap), 0))
  {
    var fulls := Matches(FullRef, text, 0);
    var added := Registered(fulls, |fulls|);
    RawTagText(text);
    AddAllTagText(Raw(fulls), |fulls|);
    RenamedTagText(added);
    var nameMap := Renamed(added, map[]);
    var shorts := Matches(ShortRef, text, 0);
    ShortRepsTags(text, nameMap);
    assert text[0..] == text;
    SpliceKeepsFullRefs(text, 0, shorts, ShortReps(text, shorts, nameMap));
  }

  /**
   * On text whose short refs sit on one line, pass 3 rewrites the full matches of the text after
   * pass 2, and they make the refs pass 1 made; with no skipped ref the source's pass 3 and the
   * corrected one agree.
   */
  lemma {:induction false} ShortRefsPassThree(text: string, fulls: seq<Match>, pointed: string, again: seq<Match>)
    requires fulls == Matches(FullRef, text, 0) && NoneOverrun(text) && ShortRefsOneLine(text)
    requires pointed == PointShortRefs(text, Renamed(Registered(fulls, |fulls|), map[]))
    requires again == Matches(FullRef, pointed, 0)
    ensures Aligned(fulls, again) && Raw(again) == Raw(fulls)
    ensures Deduplicate(text) ==
      Success(Splice(pointed, 0, again, FullReps(pointed, again, Finalized(Registered(fulls, |fulls|)))))
    ensures DeduplicateIntended(text) ==
      Success(Splice(pointed, 0, again, IntendedReps(pointed, again, Raw(fulls), Finalized(Registered(fulls, |fulls|)))))
    ensures (forall i :: 0 <= i < |fulls| ==> !Raw(fulls)[i].skip) ==> Deduplicate(text) == DeduplicateIntended(text)
  {
    PassesAligned(text);
    AlignedRaw(fulls, again);
    if forall i :: 0 <= i < |fulls| ==> !Raw(fulls)[i].skip {
      AsWrittenAgrees(pointed, again, Raw(fulls), Finalized(Registered(fulls, |fulls|)));
    }
  }

  /**
   * What the corrected passes write for full ref `i` of text whose short refs sit on one line:
   * the ref as it was when it is skipped or has no duplicate, `<ref name="N">content</ref>` when
   * it opens its duplicate group and `<ref name="N" />` after, N the group's shared name.
   */
  lemma {:induction false} ShortRefsRule(text: string, fulls: seq<Match>, pointed: string, again: seq<Match>, i: nat)
    requires fulls == Matches(FullRef, text, 0) && NoneOverrun(text) && ShortRefsOneLine(text)
    requires pointed == PointShortRefs(text, Renamed(Registered(fulls, |fulls|), map[]))
    requires again == Matches(FullRef, pointed, 0) && i < |fulls|
    ensures |again| == |fulls|
    ensures var raw, added := Raw(fulls), Registered(fulls, |fulls|);
      IntendedReps(pointed, again, raw, Finalized(added))[i] ==
        if raw[i].skip || !IsDupKey(KeySeq(added), Key(raw[i])) then MatchText(text, fulls[i])
        else if OpensGroup(raw, i) then FullTag(CanonicalName(added, Key(raw[i])), fulls[i].group2)
        else ShortTag(CanonicalName(added, Key(raw[i])))
  {
    var raw := Raw(fulls);
    PassesAligned(text);
    AlignedRaw(fulls, again);
    RawUnmarked(fulls);
    FullMatchText(text, fulls, i);
    FullMatchText(pointed, again, i);
    RawContent(fulls, i);
    IntendedRep(pointed, again, raw, Registered(fulls, |fulls|), i);
  }
}

