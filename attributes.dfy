/**
 * parseAttributes: a tag's attribute text to a key -> value map. Quoted pairs `key="v"` and
 * `key='v'` are removed first, then unquoted pairs `key=v` from the trimmed remainder; what is
 * still left after trimming is the residue the source warns about.
 */
module Attributes {
  import opened Text
  import opened Patterns

  /** The pairs of `ms` written into `attrs` in match order, so a later pair with a key overwrites an earlier one. */
  function Bind(attrs: map<string, string>, ms: seq<Match>): map<string, string>
    decreases |ms|
  {
    if ms == [] then attrs else Bind(attrs[ms[0].group1 := ms[0].group2], ms[1..])
  }

  function Blanks(n: nat): seq<string>
  {
    seq(n, _ => "")
  }

  /** `s.replace(pat, () => "")`: `s` with every match of `pat` removed. */
  function Strip(pat: Pattern, s: string): string
  {
    var ms := Matches(pat, s, 0);
    Splice(s, 0, ms, Blanks(|ms|))
  }

  /** What the unquoted pass scans: the trimmed text left by the quoted pass. */
  function AfterQuoted(s: string): string
  {
    Trim(Strip(QuotedAttr, s))
  }

  /** The map parseAttributes returns. */
  function AttributesOf(s: string): map<string, string>
  {
    Bind(Bind(map[], Matches(QuotedAttr, s, 0)), Matches(BareAttr, AfterQuoted(s), 0))
  }

  /** The text parseAttributes could not parse (it warns when this is not empty). */
  function ResidueOf(s: string): string
  {
    Trim(Strip(BareAttr, AfterQuoted(s)))
  }

  /** One `replace` pass: every match of `pat` in `s` is stored into the map and removed from the text. */
  method TakePairs(pat: Pattern, s: string, attributes: map<string, string>)
    returns (updated: map<string, string>, rest: string)
    ensures updated == Bind(attributes, Matches(pat, s, 0))
    ensures rest == Strip(pat, s)
  {
    var ms := Matches(pat, s, 0);
    var blanks := Blanks(|ms|);
    updated, rest := attributes, "";
    var pos: nat := 0;
    ghost var bound, stripped := Bind(attributes, ms), Splice(s, 0, ms, blanks);
    for i := 0 to |ms|
      invariant pos <= |s| && Ordered(ms[i..], pos, |s|)
      invariant bound == Bind(updated, ms[i..])
      invariant stripped == rest + Splice(s, pos, ms[i..], blanks[i..])
    {
      updated, rest, pos := TakeOne(s, ms, blanks, i, updated, rest, pos, bound, stripped);
    }
    assert ms[|ms|..] == [];
    rest := rest + s[pos..];
  }

  /** One call of the callback: the pair is stored and the text before the match is kept. */
  method TakeOne(s: string, ms: seq<Match>, blanks: seq<string>, i: nat,
                 updated: map<string, string>, rest: string, pos: nat,
                 ghost bound: map<string, string>, ghost stripped: string)
    returns (updated': map<string, string>, rest': string, pos': nat)
    requires i < |ms| && |blanks| == |ms| && blanks[i] == ""
    requires pos <= |s| && Ordered(ms[i..], pos, |s|)
    requires bound == Bind(updated, ms[i..])
    requires stripped == rest + Splice(s, pos, ms[i..], blanks[i..])
    ensures pos' <= |s| && Ordered(ms[i + 1..], pos', |s|)
    ensures bound == Bind(updated', ms[i + 1..])
    ensures stripped == rest' + Splice(s, pos', ms[i + 1..], blanks[i + 1..])
  {
    TakeStep(s, pos, ms, blanks, i, updated);
    updated' := updated[ms[i].group1 := ms[i].group2];
    rest' := rest + s[pos..ms[i].start];
    pos' := ms[i].end;
  }

  /** One iteration of the callback loop: the first pending match is bound and cut out. */
  lemma {:induction false} TakeStep(s: string, pos: nat, ms: seq<Match>, blanks: seq<string>, i: nat, updated: map<string, string>)
    requires pos <= |s| && i < |ms| && |blanks| == |ms| && blanks[i] == "" && Ordered(ms[i..], pos, |s|)
    ensures pos <= ms[i].start < ms[i].end <= |s| && Ordered(ms[i + 1..], ms[i].end, |s|)
    ensures Bind(updated, ms[i..]) == Bind(updated[ms[i].group1 := ms[i].group2], ms[i + 1..])
    ensures Splice(s, pos, ms[i..], blanks[i..])
         == s[pos..ms[i].start] + Splice(s, ms[i].end, ms[i + 1..], blanks[i + 1..])
  {
    SpliceUnfold(s, pos, ms, blanks, i);
    assert ms[i..][0] == ms[i] && ms[i..][1..] == ms[i + 1..];
  }

  /** parseAttributes: the attribute map, and the residue it would warn about. */
  method ParseAttributes(attributeString: string) returns (attributes: map<string, string>, residue: string)
    ensures attributes == AttributesOf(attributeString)
    ensures residue == ResidueOf(attributeString)
  {
    var rest;
    attributes, rest := TakePairs(QuotedAttr, attributeString, map[]);
    attributes, rest := TakePairs(BareAttr, Trim(rest), attributes);
    residue := Trim(rest);
  }

  // ---------------------------------------------------------------- properties

  /** The keys of a bound map: the keys already there and the key of every pair. */
  lemma {:induction false} BindKeys(attrs: map<string, string>, ms: seq<Match>, k: string)
    ensures k in Bind(attrs, ms) <==> k in attrs || exists j :: 0 <= j < |ms| && ms[j].group1 == k
    decreases |ms|
  {
    if ms != [] {
      BindKeys(attrs[ms[0].group1 := ms[0].group2], ms[1..], k);
      if exists j :: 0 <= j < |ms[1..]| && ms[1..][j].group1 == k {
        var j :| 0 <= j < |ms[1..]| && ms[1..][j].group1 == k;
        assert ms[j + 1].group1 == k;
      }
      if exists j :: 0 <= j < |ms| && ms[j].group1 == k {
        var j :| 0 <= j < |ms| && ms[j].group1 == k;
        if j > 0 { assert ms[1..][j - 1].group1 == k; }
      }
    }
  }

  /** The last pair with a key decides its value. */
  lemma {:induction false} BindLastWins(attrs: map<string, string>, ms: seq<Match>, i: nat)
    requires i < |ms|
    requires forall j :: i < j < |ms| ==> ms[j].group1 != ms[i].group1
    ensures ms[i].group1 in Bind(attrs, ms) && Bind(attrs, ms)[ms[i].group1] == ms[i].group2
    decreases |ms|
  {
    if i == 0 {
      BindKeepsAbsent(attrs[ms[0].group1 := ms[0].group2], ms[1..], ms[0].group1);
    } else {
      BindLastWins(attrs[ms[0].group1 := ms[0].group2], ms[1..], i - 1);
    }
  }

  /** A key no pair carries keeps its value. */
  lemma {:induction false} BindKeepsAbsent(attrs: map<string, string>, ms: seq<Match>, k: string)
    requires forall j :: 0 <= j < |ms| ==> ms[j].group1 != k
    ensures k in Bind(attrs, ms) <==> k in attrs
    ensures k in attrs ==> Bind(attrs, ms)[k] == attrs[k]
    decreases |ms|
  {
    if ms != [] {
      BindKeepsAbsent(attrs[ms[0].group1 := ms[0].group2], ms[1..], k);
    }
  }

  /** A match of either attribute pattern starts with a word character. */
  lemma {:induction false} MatchStartsWithWord(pat: Pattern, t: string, p: nat)
    requires pat == QuotedAttr || pat == BareAttr
    requires p <= |t| && MatchAt(pat, t, p).Some?
    ensures p < |t| && IsWordChar(t[p])
  {
    var m := MatchAt(pat, t, p).value;
    assert t[p..p + |m.group1|] == m.group1;
    assert m.group1[0] == t[p];
  }

  /** Without a word character there is no attribute pair to find. */
  lemma {:induction false} NoPairsInSpace(pat: Pattern, t: string)
    requires pat == QuotedAttr || pat == BareAttr
    requires AllSpace(t)
    ensures Matches(pat, t, 0) == []
    ensures Strip(pat, t) == t
  {
    forall p: nat | p <= |t| ensures MatchAt(pat, t, p).None? {
      NoMatchInSpace(pat, t, p);
    }
  }

  /** No attribute pair starts inside white space. */
  lemma {:induction false} NoMatchInSpace(pat: Pattern, t: string, p: nat)
    requires pat == QuotedAttr || pat == BareAttr
    requires AllSpace(t) && p <= |t|
    ensures MatchAt(pat, t, p).None?
  {
    if MatchAt(pat, t, p).Some? {
      MatchStartsWithWord(pat, t, p);
    }
  }

  /** Empty or all-white-space attribute text parses to the empty map, with nothing left over. */
  lemma {:induction false} BlankAttributes(s: string)
    requires AllSpace(s)
    ensures AttributesOf(s) == map[]
    ensures ResidueOf(s) == ""
  {
    NoPairsInSpace(QuotedAttr, s);
    TrimAllSpace(s);
    NoPairsInSpace(BareAttr, "");
  }

  lemma {:induction false} AttributesOfUnfold(s: string)
    ensures AttributesOf(s) == Bind(Bind(map[], Matches(QuotedAttr, s, 0)), Matches(BareAttr, AfterQuoted(s), 0))
  {
  }

  lemma {:induction false} BindBothKeys(quoted: seq<Match>, bare: seq<Match>, k: string)
    ensures k in Bind(Bind(map[], quoted), bare) <==>
              (exists j :: 0 <= j < |quoted| && quoted[j].group1 == k)
              || (exists j :: 0 <= j < |bare| && bare[j].group1 == k)
  {
    BindKeys(map[], quoted, k);
    BindKeys(Bind(map[], quoted), bare, k);
  }

  /** Every key is the key of a quoted pair or of an unquoted pair, and every pair's key is present. */
  lemma {:induction false} AttributeKeys(s: string, k: string)
    ensures var quoted := Matches(QuotedAttr, s, 0);
            var bare := Matches(BareAttr, AfterQuoted(s), 0);
            k in AttributesOf(s) <==>
              (exists j :: 0 <= j < |quoted| && quoted[j].group1 == k)
              || (exists j :: 0 <= j < |bare| && bare[j].group1 == k)
  {
    var quoted := Matches(QuotedAttr, s, 0);
    var bare := Matches(BareAttr, AfterQuoted(s), 0);
    AttributesOfUnfold(s);
    BindBothKeys(quoted, bare, k);
  }

  lemma {:induction false} BindQuotedValue(quoted: seq<Match>, bare: seq<Match>, i: nat)
    requires i < |quoted| && (forall j :: i < j < |quoted| ==> quoted[j].group1 != quoted[i].group1)
    requires forall j :: 0 <= j < |bare| ==> bare[j].group1 != quoted[i].group1
    ensures quoted[i].group1 in Bind(Bind(map[], quoted), bare)
    ensures Bind(Bind(map[], quoted), bare)[quoted[i].group1] == quoted[i].group2
  {
    BindLastWins(map[], quoted, i);
    BindKeepsAbsent(Bind(map[], quoted), bare, quoted[i].group1);
  }

  /** A quoted pair sets its key's value unless a later quoted pair or an unquoted pair has the same key. */
  lemma {:induction false} QuotedPairValue(s: string, i: nat)
    requires var quoted := Matches(QuotedAttr, s, 0);
             && i < |quoted|
             && (forall j :: i < j < |quoted| ==> quoted[j].group1 != quoted[i].group1)
    requires var bare := Matches(BareAttr, AfterQuoted(s), 0);
             forall j :: 0 <= j < |bare| ==> bare[j].group1 != Matches(QuotedAttr, s, 0)[i].group1
    ensures var m := Matches(QuotedAttr, s, 0)[i];
            m.group1 in AttributesOf(s) && AttributesOf(s)[m.group1] == m.group2
  {
    var quoted := Matches(QuotedAttr, s, 0);
    var bare := Matches(BareAttr, AfterQuoted(s), 0);
    AttributesOfUnfold(s);
    BindQuotedValue(quoted, bare, i);
  }

  /** An unquoted pair sets its key's value unless a later unquoted pair has the same key. */
  lemma {:induction false} BarePairValue(s: string, i: nat)
    requires var bare := Matches(BareAttr, AfterQuoted(s), 0);
             && i < |bare|
             && (forall j :: i < j < |bare| ==> bare[j].group1 != bare[i].group1)
    ensures var m := Matches(BareAttr, AfterQuoted(s), 0)[i];
            m.group1 in AttributesOf(s) && AttributesOf(s)[m.group1] == m.group2
  {
    var quoted := Matches(QuotedAttr, s, 0);
    var bare := Matches(BareAttr, AfterQuoted(s), 0);
    AttributesOfUnfold(s);
    BindLastWins(Bind(map[], quoted), bare, i);
  }
}
