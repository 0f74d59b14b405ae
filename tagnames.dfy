/**
 * The names the short-ref pass writes into `<ref name="N" />` tags fit inside a one-line tag:
 * no `>`, no `/` and no line terminator. Every such name is the value of a `name` attribute of
 * a full ref, whose attribute text holds no `>` or `/`, or a `dd:` name made of digits.
 */
module TagNames {
  import opened Text
  import opened Patterns
  import opened Attributes
  import opened RefGroups
  import opened Alignment

  // ---------------------------------------------------------------- attribute values

  /** Removing matches (each replaced by a string of the class) keeps a text within a class. */
  lemma {:induction false} AllInSplice(k: CharClass, t: string, from: nat, ms: seq<Match>, reps: seq<string>)
    requires from <= |t| && Ordered(ms, from, |t|) && |reps| == |ms|
    requires AllIn(k, t) && forall i :: 0 <= i < |reps| ==> AllIn(k, reps[i])
    ensures AllIn(k, Splice(t, from, ms, reps))
    decreases |ms|
  {
    if ms != [] {
      OrderedTail(ms, from, |t|);
      AllInSplice(k, t, ms[0].end, ms[1..], reps[1..]);
      var w, x, rest := t[from..ms[0].start], reps[0], Splice(t, ms[0].end, ms[1..], reps[1..]);
      assert Splice(t, from, ms, reps) == w + x + rest;
      forall i | 0 <= i < |w + x + rest|
        ensures InClass(k, (w + x + rest)[i])
      {
        if i < |w| {
          assert (w + x + rest)[i] == t[from + i];
        } else if i < |w| + |x| {
          assert (w + x + rest)[i] == x[i - |w|];
        } else {
          assert (w + x + rest)[i] == rest[i - |w| - |x|];
        }
      }
    }
  }

  /** Trimming keeps a text within a class. */
  lemma {:induction false} AllInTrim(k: CharClass, s: string)
    requires AllIn(k, s)
    ensures AllIn(k, Trim(s))
  {
    var l := TrimLeft(s);
    TrimLeftShape(s);
    TrimRightShape(l);
    assert forall i :: 0 <= i < |l| ==> l[i] == s[i + |s| - |l|];
  }

  /** What the unquoted pass scans holds no `>` or `/` when the attribute text holds none. */
  lemma {:induction false} AfterQuotedAttrText(s: string)
    requires AllIn(AttrText, s)
    ensures AllIn(AttrText, AfterQuoted(s))
  {
    var ms := Matches(QuotedAttr, s, 0);
    AllInSplice(AttrText, s, 0, ms, Blanks(|ms|));
    AllInTrim(AttrText, Strip(QuotedAttr, s));
  }

  /** Every value of a map fits inside a one-line tag. */
  predicate ValuesTagText(m: map<string, string>)
  {
    forall k :: k in m ==> TagText(m[k])
  }

  /** Every pair of a list has a value that fits inside a one-line tag. */
  predicate PairsTagText(ms: seq<Match>)
  {
    forall i :: 0 <= i < |ms| ==> TagText(ms[i].group2)
  }

  /** Binding pairs whose values fit inside a tag keeps every value fitting. */
  lemma {:induction false} BindTagText(attrs: map<string, string>, ms: seq<Match>)
    requires ValuesTagText(attrs) && PairsTagText(ms)
    ensures ValuesTagText(Bind(attrs, ms))
    decreases |ms|
  {
    if ms != [] {
      assert TagText(ms[0].group2);
      forall i | 0 <= i < |ms| - 1
        ensures TagText(ms[1..][i].group2)
      {
        assert ms[1..][i] == ms[i + 1];
      }
      BindTagText(attrs[ms[0].group1 := ms[0].group2], ms[1..]);
    }
  }

  /** A slice of a text within a class is within the class. */
  lemma {:induction false} AllInSlice(k: CharClass, s: string, i: nat, j: nat)
    requires AllIn(k, s) && i <= j <= |s|
    ensures AllIn(k, s[i..j])
  {
    assert forall x :: 0 <= x < j - i ==> s[i..j][x] == s[i + x];
  }

  /** A quoted value is free of line terminators by the pattern, and of `>` and `/` by the text. */
  lemma {:induction false} QuotedValueTagText(s: string, i: nat)
    requires AllIn(AttrText, s) && i < |Matches(QuotedAttr, s, 0)|
    ensures TagText(Matches(QuotedAttr, s, 0)[i].group2)
  {
    var m := Matches(QuotedAttr, s, 0)[i];
    MatchesAreMatches(QuotedAttr, s, 0, i);
    QuotedAttrShape(s, m.start, m);
    AllInSlice(AttrText, s, m.start + |m.group1| + 2, m.end - 1);
  }

  /** An unquoted value is free of white space by the pattern, and of `>` and `/` by the text. */
  lemma {:induction false} BareValueTagText(s: string, i: nat)
    requires AllIn(AttrText, s) && i < |Matches(BareAttr, s, 0)|
    ensures TagText(Matches(BareAttr, s, 0)[i].group2)
  {
    var m := Matches(BareAttr, s, 0)[i];
    MatchesAreMatches(BareAttr, s, 0, i);
    BareAttrShape(s, m.start, m);
    AllInSlice(AttrText, s, m.start + |m.group1| + 1, m.end);
    assert forall x :: 0 <= x < |m.group2| ==> InClass(NonSpace, m.group2[x]);
  }

  /** Every attribute value parsed from text without `>` or `/` fits inside a one-line tag. */
  lemma {:induction false} AttributesTagText(s: string)
    requires AllIn(AttrText, s)
    ensures ValuesTagText(AttributesOf(s))
  {
    var quoted := Matches(QuotedAttr, s, 0);
    forall i | 0 <= i < |quoted| ensures TagText(quoted[i].group2) {
      QuotedValueTagText(s, i);
    }
    BindTagText(map[], quoted);
    AfterQuotedAttrText(s);
    var bare := Matches(BareAttr, AfterQuoted(s), 0);
    forall i | 0 <= i < |bare| ensures TagText(bare[i].group2) {
      BareValueTagText(AfterQuoted(s), i);
    }
    BindTagText(Bind(map[], Matches(QuotedAttr, s, 0)), Matches(BareAttr, AfterQuoted(s), 0));
  }

  // ---------------------------------------------------------------- names of refs

  /** Every ref of a list has a name that fits inside a one-line tag. */
  predicate NamesTagText(rs: seq<Ref>)
  {
    forall i :: 0 <= i < |rs| ==> TagText(rs[i].name)
  }

  /** The name of a ref made from attribute text without `>` or `/` fits inside a one-line tag. */
  lemma {:induction false} NewRefTagText(attr: string, content: string)
    requires AllIn(AttrText, attr)
    ensures TagText(NewRef(attr, content).name)
  {
    AttributesTagText(attr);
  }

  /** `add` stores refs as they come, with their names. */
  lemma {:induction false} AddAllTagText(raw: seq<Ref>, n: nat)
    requires n <= |raw| && NamesTagText(raw)
    ensures NamesTagText(AddAll(raw, n))
  {
    if n > 0 {
      AddAllTagText(raw, n - 1);
      var before := AddAll(raw, n - 1);
      assert TagText(raw[n - 1].name);
      if !raw[n - 1].skip {
        assert AddAll(raw, n) == before + [raw[n - 1].(first := raw[n - 1].first || Key(raw[n - 1]) !in KeySeq(before))];
      }
    }
  }

  /** The longest of some names is one of them, or empty. */
  lemma {:induction false} LongestTagText(ns: seq<string>)
    requires forall j :: 0 <= j < |ns| ==> TagText(ns[j])
    ensures TagText(Longest(ns))
  {
    LongestSpec(ns);
    if Longest(ns) != "" {
      var j :| 0 <= j < |ns| && ns[j] == Longest(ns) && forall i :: 0 <= i < j ==> |ns[i]| < |ns[j]|;
    }
  }

  /** A `dd:` name is letters, a colon and digits. */
  lemma {:induction false} NumberedTagText(n: nat)
    ensures TagText("dd:" + NatToString(n))
  {
    var digits := NatToString(n);
    forall i | 0 <= i < |"dd:" + digits|
      ensures InClass(AttrText, ("dd:" + digits)[i]) && !IsLineTerminator(("dd:" + digits)[i])
    {
      if i >= 3 {
        assert ("dd:" + digits)[i] == digits[i - 3];
        assert IsDigit(digits[i - 3]);
      }
    }
  }

  /** The name a duplicate group shares fits inside a one-line tag. */
  lemma {:induction false} CanonicalTagText(rs: seq<Ref>, k: string)
    requires NamesTagText(rs)
    ensures TagText(CanonicalName(rs, k))
  {
    var ns := NamesAt(rs, Positions(KeySeq(rs), k));
    LongestTagText(ns);
    NumberedTagText(Ordinal(KeySeq(rs), k));
  }

  lemma {:induction false} RenameGroupTagText(rs: seq<Ref>, ps: seq<nat>, name: string, nm: map<string, string>)
    requires forall j :: 0 <= j < |ps| ==> ps[j] < |rs|
    requires ValuesTagText(nm) && TagText(name)
    ensures ValuesTagText(RenameGroup(rs, ps, name, nm))
    decreases |ps|
  {
    if ps != [] {
      RenameGroupTagText(rs, ps[..|ps| - 1], name, nm);
    }
  }

  lemma {:induction false} RenameKeysTagText(rs: seq<Ref>, keys: seq<string>, nm: map<string, string>)
    requires NamesTagText(rs) && ValuesTagText(nm)
    ensures ValuesTagText(RenameKeys(rs, keys, nm))
    decreases |keys|
  {
    if keys != [] {
      var k := keys[|keys| - 1];
      RenameKeysTagText(rs, keys[..|keys| - 1], nm);
      if IsDupKey(KeySeq(rs), k) {
        CanonicalTagText(rs, k);
        RenameGroupTagText(rs, Positions(KeySeq(rs), k), CanonicalName(rs, k), RenameKeys(rs, keys[..|keys| - 1], nm));
      }
    }
  }

  /** Every name finalize maps a ref's name to fits inside a one-line tag. */
  lemma {:induction false} RenamedTagText(rs: seq<Ref>)
    requires NamesTagText(rs)
    ensures ValuesTagText(Renamed(rs, map[]))
  {
    RenameKeysTagText(rs, KeysInOrder(KeySeq(rs)), map[]);
  }

  /** `<ref name="N" />` is a one-line tag when N fits inside one. */
  lemma {:induction false} ShortTagOneLine(name: string)
    requires TagText(name)
    ensures OneLineTag("<ref name=\"" + name + "\" />")
  {
    var x := "<ref name=\"" + name + "\" />";
    assert x[..4] == "<ref";
    forall i | 4 <= i < |x| - 2
      ensures InClass(AttrText, x[i]) && !IsLineTerminator(x[i])
    {
      if 11 <= i < 11 + |name| {
        assert x[i] == name[i - 11];
      } else if i >= 11 + |name| {
        assert x[i] == ("\" />")[i - 11 - |name|];
      }
    }
    assert x[|x| - 2] == '/' && x[|x| - 1] == '>';
  }
}
