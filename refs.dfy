/**
 * The per-occurrence `Ref` record and, as functions on the list of refs, what the registry
 * computes from it: groups by normalized content, the first of each group, the shared name
 * `finalize` gives each group of two or more, and the nameMap of replaced names.
 */
module RefGroups {
  import opened Wrappers
  import opened Text
  import opened Attributes
  import opened Normalize

  // ---------------------------------------------------------------- Ref

  /**
   * One `<ref>` occurrence. `content` and `normalized` are None where the source stores `false`
   * (empty content) or leaves them unset (a skipped ref).
   */
  datatype Ref = Ref(name: string, attrs: map<string, string>, skip: bool,
                     content: Option<string>, normalized: Option<string>,
                     first: bool, duplicate: bool)

  /** A map has a key other than `name` exactly when it has more keys than the `name` key alone. */
  lemma {:induction false} SkipIff(attrs: map<string, string>)
    ensures |attrs| > (if "name" in attrs then 1 else 0) <==> exists k :: k in attrs && k != "name"
  {
    if exists k :: k in attrs && k != "name" {
      var k :| k in attrs && k != "name";
      if "name" in attrs {
        assert {"name", k} <= attrs.Keys;
        assert |attrs.Keys| == |attrs.Keys - {"name", k}| + |{"name", k}|;
      } else {
        assert k in attrs.Keys;
      }
    } else if "name" in attrs {
      assert attrs.Keys == {"name"};
    } else {
      assert attrs.Keys == {};
    }
  }

  /** The Ref constructor: attributes parsed, the name taken from them, and content kept only when eligible. */
  function NewRef(attr: string, content: string): (r: Ref)
    ensures r.attrs == AttributesOf(attr)
  {
    RefFrom(AttributesOf(attr), content)
  }

  /** The Ref constructor once the attributes are parsed. */
  function RefFrom(attrs: map<string, string>, content: string): (r: Ref)
    ensures r.attrs == attrs && !r.first && !r.duplicate
    ensures r.name == (if "name" in attrs then attrs["name"] else "")
    ensures r.skip <==> exists k :: k in attrs && k != "name"
    ensures r.content == (if r.skip || content == [] then None else Some(content))
    ensures r.normalized == (if r.skip || content == [] then None else Some(NormalizeContent(content)))
  {
    var limit := if "name" in attrs then 1 else 0;
    SkipIff(attrs);
    var name := if "name" in attrs then attrs["name"] else "";
    if |attrs| > limit then Ref(name, attrs, true, None, None, false, false)
    else if |content| > 0 then Ref(name, attrs, false, Some(content), Some(NormalizeContent(content)), false, false)
    else Ref(name, attrs, false, None, None, false, false)
  }

  /** A constructed ref with non-empty content keeps it, and is keyed by its normalized form, unless skipped. */
  lemma {:induction false} NewRefContent(attr: string, content: string, r: Ref)
    requires content != [] && r == NewRef(attr, content)
    ensures r.content == if r.skip then None else Some(content)
    ensures Key(r) == if r.skip then "false" else NormalizeContent(content)
  {
  }

  /** The refMap key of a ref: its normalized content, or the text `false` that an object key `false` becomes. */
  function Key(r: Ref): string
  {
    if r.normalized.Some? then r.normalized.value else "false"
  }

  function KeySeq(rs: seq<Ref>): (ks: seq<string>)
    ensures |ks| == |rs| && forall i :: 0 <= i < |rs| ==> ks[i] == Key(rs[i])
  {
    seq(|rs|, i requires 0 <= i < |rs| => Key(rs[i]))
  }

  // ---------------------------------------------------------------- groups

  /** The positions, in increasing order, of the refs whose key is `k`: the group list of `k`. */
  function Positions(ks: seq<string>, k: string): (ps: seq<nat>)
    ensures forall j :: 0 <= j < |ps| ==> ps[j] < |ks| && ks[ps[j]] == k
    ensures forall a, b :: 0 <= a < b < |ps| ==> ps[a] < ps[b]
    decreases |ks|
  {
    if ks == [] then []
    else Positions(ks[..|ks| - 1], k) + (if ks[|ks| - 1] == k then [|ks| - 1] else [])
  }

  /** Every ref with key `k` is in the group of `k`. */
  lemma {:induction false} PositionsComplete(ks: seq<string>, k: string, i: nat)
    requires i < |ks| && ks[i] == k
    ensures i in Positions(ks, k)
    decreases |ks|
  {
    if i < |ks| - 1 {
      PositionsComplete(ks[..|ks| - 1], k, i);
    }
  }

  /** The keys of refMap in insertion order: each key once, in order of its first ref. */
  function KeysInOrder(ks: seq<string>): (r: seq<string>)
    ensures forall k :: k in r <==> k in ks
    ensures forall a, b :: 0 <= a < b < |r| ==> r[a] != r[b]
    decreases |ks|
  {
    if ks == [] then []
    else
      var r := KeysInOrder(ks[..|ks| - 1]);
      var k := ks[|ks| - 1];
      assert forall x :: x in ks <==> x in ks[..|ks| - 1] || x == k by {
        assert ks == ks[..|ks| - 1] + [k];
      }
      if k in r then r else r + [k]
  }

  /** A group of two or more refs: its members are duplicates. */
  predicate IsDupKey(ks: seq<string>, k: string)
  {
    |Positions(ks, k)| > 1
  }

  /** How many of `keys` name duplicate groups. */
  function DupCount(ks: seq<string>, keys: seq<string>): (n: nat)
    ensures n <= |keys|
    decreases |keys|
  {
    if keys == [] then 0
    else DupCount(ks, keys[..|keys| - 1]) + (if IsDupKey(ks, keys[|keys| - 1]) then 1 else 0)
  }

  /** Where `x` first sits in a sequence, or the sequence's length when `x` is absent. */
  function Find(xs: seq<string>, x: string): (i: nat)
    ensures i <= |xs| && x !in xs[..i]
    ensures i < |xs| ==> xs[i] == x
    ensures i == |xs| ==> x !in xs
  {
    if xs == [] then 0
    else if xs[0] == x then 0
    else
      var i := 1 + Find(xs[1..], x);
      assert xs[..i] == [xs[0]] + xs[1..][..i - 1];
      assert i == |xs| ==> xs == [xs[0]] + xs[1..];
      i
  }

  /** The `no` of a duplicate group: 1 plus the number of duplicate groups before it in key order. */
  function Ordinal(ks: seq<string>, k: string): nat
  {
    var order := KeysInOrder(ks);
    1 + DupCount(ks, order[..Find(order, k)])
  }

  /** The names of the refs at `ps`. */
  function NamesAt(rs: seq<Ref>, ps: seq<nat>): (ns: seq<string>)
    requires forall j :: 0 <= j < |ps| ==> ps[j] < |rs|
    ensures |ns| == |ps| && forall j :: 0 <= j < |ps| ==> ns[j] == rs[ps[j]].name
  {
    seq(|ps|, j requires 0 <= j < |ps| => rs[ps[j]].name)
  }

  /** The name finalize picks from a group's names: the first of the longest non-empty ones, or "". */
  function Longest(ns: seq<string>): string
    decreases |ns|
  {
    if ns == [] then ""
    else
      var best := Longest(ns[..|ns| - 1]);
      var n := ns[|ns| - 1];
      if |n| > 0 && |n| > |best| then n else best
  }

  /** The name a duplicate group shares: its longest name, or `dd:no` when none of its refs is named. */
  function CanonicalName(rs: seq<Ref>, k: string): string
  {
    var best := Longest(NamesAt(rs, Positions(KeySeq(rs), k)));
    if |best| > 0 then best else "dd:" + NatToString(Ordinal(KeySeq(rs), k))
  }

  /** A ref after finalize: renamed and marked when its group has two or more refs. */
  function FinalRef(rs: seq<Ref>, p: nat): Ref
    requires p < |rs|
  {
    var k := Key(rs[p]);
    if IsDupKey(KeySeq(rs), k) then rs[p].(name := CanonicalName(rs, k), duplicate := true) else rs[p]
  }

  function Finalized(rs: seq<Ref>): (r: seq<Ref>)
    ensures |r| == |rs|
  {
    seq(|rs|, p requires 0 <= p < |rs| => FinalRef(rs, p))
  }

  /** nameMap after the members at `ps` have each mapped their own name to `name`, in order. */
  function RenameGroup(rs: seq<Ref>, ps: seq<nat>, name: string, nm: map<string, string>): map<string, string>
    requires forall j :: 0 <= j < |ps| ==> ps[j] < |rs|
    decreases |ps|
  {
    if ps == [] then nm
    else RenameGroup(rs, ps[..|ps| - 1], name, nm)[rs[ps[|ps| - 1]].name := name]
  }

  /** nameMap after finalize has visited the groups of `keys` in order. */
  function RenameKeys(rs: seq<Ref>, keys: seq<string>, nm: map<string, string>): map<string, string>
    decreases |keys|
  {
    if keys == [] then nm
    else
      var before := RenameKeys(rs, keys[..|keys| - 1], nm);
      var k := keys[|keys| - 1];
      if IsDupKey(KeySeq(rs), k) then RenameGroup(rs, Positions(KeySeq(rs), k), CanonicalName(rs, k), before)
      else before
  }

  /** nameMap after finalize. */
  function Renamed(rs: seq<Ref>, nm: map<string, string>): map<string, string>
  {
    RenameKeys(rs, KeysInOrder(KeySeq(rs)), nm)
  }

  /** What `isdup` returns: undefined past the end, false, or the ref. */
  datatype DupAnswer = Undefined | NotDup | Dup(ref: Ref)

  /** `isdup(index, content)` on a list of refs. */
  function DupAt(rs: seq<Ref>, index: nat, content: string): (a: DupAnswer)
    ensures a == Undefined <==> index >= |rs|
    ensures a.Dup? <==> index < |rs| && rs[index].content == Some(content) && rs[index].duplicate
    ensures a.Dup? ==> a.ref == rs[index]
  {
    if index >= |rs| then Undefined
    else if rs[index].content != Some(content) then NotDup
    else if !rs[index].duplicate then NotDup
    else Dup(rs[index])
  }

  /** `refs.add(ref)` on the list of refs: skipped refs are dropped, and the first of a key is marked. */
  function AddRef(rs: seq<Ref>, r: Ref): seq<Ref>
  {
    if r.skip then rs else rs + [r.(first := r.first || Key(r) !in KeySeq(rs))]
  }

  // ---------------------------------------------------------------- the registry

  /**
   * How the registry's fields fit together: the keys are those of the refs in order of first
   * appearance, every group lists exactly the positions of its key, no skipped ref is stored,
   * and a ref is marked first exactly when it opened its group.
   */
  ghost predicate Consistent(refs: seq<Ref>, refMap: map<string, seq<nat>>, keys: seq<string>)
  {
    && keys == KeysInOrder(KeySeq(refs))
    && GroupsMatch(refs, refMap, keys)
    && NoneSkipped(refs)
    && FirstMarksOpeners(refs)
  }

  /** refMap has exactly the listed keys, and each key's list holds the positions of its refs. */
  ghost predicate GroupsMatch(refs: seq<Ref>, refMap: map<string, seq<nat>>, keys: seq<string>)
  {
    && (forall k :: k in refMap <==> k in keys)
    && (forall k :: k in refMap ==> refMap[k] == Positions(KeySeq(refs), k))
  }

  ghost predicate NoneSkipped(refs: seq<Ref>)
  {
    forall i :: 0 <= i < |refs| ==> !refs[i].skip
  }

  /** A ref is marked first exactly when it is the first ref with its key. */
  ghost predicate FirstMarksOpeners(refs: seq<Ref>)
  {
    forall i :: 0 <= i < |refs| ==> (refs[i].first <==> Find(KeySeq(refs), Key(refs[i])) == i)
  }

  /** Appending one key to a key list. */
  lemma {:induction false} KeysAppend(ks: seq<string>, k: string)
    ensures (ks + [k])[..|ks|] == ks
    ensures KeysInOrder(ks + [k]) == KeysInOrder(ks) + (if k in ks then [] else [k])
    ensures forall x :: Positions(ks + [k], x) == Positions(ks, x) + (if x == k then [|ks|] else [])
  {
    assert (ks + [k])[..|ks|] == ks;
    forall x ensures Positions(ks + [k], x) == Positions(ks, x) + (if x == k then [|ks|] else []) {
      PositionsAppend(ks, k, x);
    }
  }

  lemma {:induction false} PositionsAppend(ks: seq<string>, k: string, x: string)
    ensures Positions(ks + [k], x) == Positions(ks, x) + (if x == k then [|ks|] else [])
  {
    assert (ks + [k])[..|ks|] == ks;
  }

  lemma {:induction false} PositionsAbsent(ks: seq<string>, k: string)
    requires k !in ks
    ensures Positions(ks, k) == []
    decreases |ks|
  {
    if ks != [] {
      PositionsAbsent(ks[..|ks| - 1], k);
    }
  }

  lemma {:induction false} KeySeqAppend(rs: seq<Ref>, r: Ref)
    ensures KeySeq(rs + [r]) == KeySeq(rs) + [Key(r)]
  {
  }

  /** The first occurrence is the only index holding `x` with no `x` before it. */
  lemma {:induction false} FindUnique(xs: seq<string>, x: string, i: nat)
    requires i < |xs| && xs[i] == x && x !in xs[..i]
    ensures Find(xs, x) == i
  {
  }

  /** The first flags after appending `added`, which is first exactly when its key is new. */
  lemma {:induction false} FirstFlags(refs: seq<Ref>, added: Ref)
    requires FirstMarksOpeners(refs)
    requires added.first <==> Key(added) !in KeySeq(refs)
    ensures FirstMarksOpeners(refs + [added])
  {
    var refs' := refs + [added];
    var ks, n := KeySeq(refs), |refs|;
    KeySeqAppend(refs, added);
    forall i | 0 <= i < |refs'| ensures refs'[i].first <==> Find(KeySeq(refs'), Key(refs'[i])) == i {
      var x := Key(refs'[i]);
      if x in ks {
        var f := Find(ks, x);
        assert (ks + [Key(added)])[..f] == ks[..f];
        FindUnique(ks + [Key(added)], x, f);
      } else {
        assert (ks + [Key(added)])[..n] == ks;
        FindUnique(ks + [Key(added)], x, n);
      }
    }
  }

  /** A new key joins the key list at the end. */
  lemma {:induction false} AddKeys(refs: seq<Ref>, keys: seq<string>, added: Ref)
    requires keys == KeysInOrder(KeySeq(refs))
    ensures Key(added) in KeySeq(refs) ==> KeysInOrder(KeySeq(refs + [added])) == keys
    ensures Key(added) !in KeySeq(refs) ==> KeysInOrder(KeySeq(refs + [added])) == keys + [Key(added)]
  {
    KeySeqAppend(refs, added);
    KeysAppend(KeySeq(refs), Key(added));
  }

  /** An added ref whose key has a group joins the end of that group; nothing else changes. */
  lemma {:induction false} AddToGroup(refs: seq<Ref>, refMap: map<string, seq<nat>>, keys: seq<string>, added: Ref)
    requires GroupsMatch(refs, refMap, keys) && Key(added) in refMap
    ensures GroupsMatch(refs + [added], refMap[Key(added) := refMap[Key(added)] + [|refs|]], keys)
  {
    KeySeqAppend(refs, added);
    KeysAppend(KeySeq(refs), Key(added));
  }

  /** An added ref with a new key opens a group of its own at the end of the key list. */
  lemma {:induction false} AddNewGroup(refs: seq<Ref>, refMap: map<string, seq<nat>>, keys: seq<string>, added: Ref)
    requires GroupsMatch(refs, refMap, keys) && keys == KeysInOrder(KeySeq(refs)) && Key(added) !in refMap
    ensures GroupsMatch(refs + [added], refMap[Key(added) := [|refs|]], keys + [Key(added)])
  {
    var k, ks := Key(added), KeySeq(refs);
    KeySeqAppend(refs, added);
    KeysAppend(ks, k);
    PositionsAbsent(ks, k);
    assert [] + [|refs|] == [|refs|];
  }

  /** add keeps the registry consistent when the ref joins an existing group. */
  lemma {:induction false} AddExisting(refs: seq<Ref>, refMap: map<string, seq<nat>>, keys: seq<string>, r: Ref)
    requires Consistent(refs, refMap, keys) && !r.first && !r.skip && Key(r) in refMap
    ensures Consistent(refs + [r], refMap[Key(r) := refMap[Key(r)] + [|refs|]], keys)
    ensures Key(r) in KeySeq(refs)
  {
    assert Key(r) in keys;
    AddKeys(refs, keys, r);
    AddToGroup(refs, refMap, keys, r);
    FirstFlags(refs, r);
  }

  /** add keeps the registry consistent when the ref opens a new group, marked first. */
  lemma {:induction false} AddNew(refs: seq<Ref>, refMap: map<string, seq<nat>>, keys: seq<string>, r: Ref)
    requires Consistent(refs, refMap, keys) && !r.skip && Key(r) !in refMap
    ensures Consistent(refs + [r.(first := true)], refMap[Key(r) := [|refs|]], keys + [Key(r)])
    ensures Key(r) !in KeySeq(refs)
  {
    var added := r.(first := true);
    assert Key(r) !in keys;
    assert Key(added) == Key(r);
    AddKeys(refs, keys, added);
    AddNewGroup(refs, refMap, keys, added);
    FirstFlags(refs, added);
  }

  // ---------------------------------------------------------------- finalize, step by step

  /** The refs part-way through finalize: the groups of `done` and the positions `ps` finalized, the rest as added. */
  ghost function Partly(rs: seq<Ref>, done: seq<string>, ps: seq<nat>): (r: seq<Ref>)
    ensures |r| == |rs|
  {
    seq(|rs|, p requires 0 <= p < |rs| => if Key(rs[p]) in done || p in ps then FinalRef(rs, p) else rs[p])
  }

  lemma {:induction false} PartlyNone(rs: seq<Ref>)
    ensures Partly(rs, [], []) == rs
  {
  }

  /** The `i`-th key is new at `i`, and its ordinal counts the duplicate groups before it. */
  lemma {:induction false} OrdinalAt(ks: seq<string>, i: nat)
    requires i < |KeysInOrder(ks)|
    ensures KeysInOrder(ks)[i] in ks && KeysInOrder(ks)[i] !in KeysInOrder(ks)[..i]
    ensures Ordinal(ks, KeysInOrder(ks)[i]) == 1 + DupCount(ks, KeysInOrder(ks)[..i])
  {
    var order := KeysInOrder(ks);
    assert forall a :: 0 <= a < i ==> order[..i][a] != order[i];
    FindUnique(order, order[i], i);
  }

  /** Visiting one more key: the duplicate count and nameMap advance by that key's group. */
  lemma {:induction false} KeyStep(rs: seq<Ref>, keys: seq<string>, i: nat, nm: map<string, string>)
    requires i < |keys|
    ensures keys[..i + 1] == keys[..i] + [keys[i]]
    ensures DupCount(KeySeq(rs), keys[..i + 1]) ==
      DupCount(KeySeq(rs), keys[..i]) + (if IsDupKey(KeySeq(rs), keys[i]) then 1 else 0)
    ensures RenameKeys(rs, keys[..i + 1], nm) ==
      if IsDupKey(KeySeq(rs), keys[i])
      then RenameGroup(rs, Positions(KeySeq(rs), keys[i]), CanonicalName(rs, keys[i]), RenameKeys(rs, keys[..i], nm))
      else RenameKeys(rs, keys[..i], nm)
  {
    assert keys[..i + 1][..i] == keys[..i];
  }

  /** Looking at one more member's name while searching for the longest. */
  lemma {:induction false} NamesStep(rs: seq<Ref>, ps: seq<nat>, j: nat)
    requires j < |ps| && forall t :: 0 <= t < |ps| ==> ps[t] < |rs|
    ensures Longest(NamesAt(rs, ps[..j + 1])) ==
      var n, best := rs[ps[j]].name, Longest(NamesAt(rs, ps[..j])); if |n| > 0 && |n| > |best| then n else best
  {
    assert NamesAt(rs, ps[..j + 1])[..j] == NamesAt(rs, ps[..j]);
  }

  /** Renaming one more member of a group. */
  lemma {:induction false} RenameStep(rs: seq<Ref>, ps: seq<nat>, j: nat, name: string, nm: map<string, string>)
    requires j < |ps| && forall t :: 0 <= t < |ps| ==> ps[t] < |rs|
    ensures RenameGroup(rs, ps[..j + 1], name, nm) == RenameGroup(rs, ps[..j], name, nm)[rs[ps[j]].name := name]
  {
    assert ps[..j + 1][..j] == ps[..j];
  }

  /** The members of a group not yet visited still hold the refs as added. */
  lemma {:induction false} PartlyMembers(rs: seq<Ref>, done: seq<string>, k: string)
    requires k !in done
    ensures forall j :: 0 <= j < |Positions(KeySeq(rs), k)| ==>
      Partly(rs, done, [])[Positions(KeySeq(rs), k)[j]] == rs[Positions(KeySeq(rs), k)[j]]
  {
  }

  /** Renaming a group depends only on the names of its members. */
  lemma {:induction false} RenameSameNames(a: seq<Ref>, b: seq<Ref>, ps: seq<nat>, name: string, nm: map<string, string>)
    requires forall j :: 0 <= j < |ps| ==> ps[j] < |a| && ps[j] < |b| && a[ps[j]].name == b[ps[j]].name
    ensures RenameGroup(a, ps, name, nm) == RenameGroup(b, ps, name, nm)
    decreases |ps|
  {
    if ps != [] {
      RenameSameNames(a, b, ps[..|ps| - 1], name, nm);
    }
  }

  /** Renaming every member of the group of `k`, not yet visited, finalizes that group. */
  lemma {:induction false} GroupFinalized(rs: seq<Ref>, done: seq<string>, k: string, after: seq<Ref>)
    requires k !in done && k in KeySeq(rs) && IsDupKey(KeySeq(rs), k)
    requires |after| == |rs|
    requires forall p :: 0 <= p < |after| ==>
      after[p] == if p in Positions(KeySeq(rs), k)
        then Partly(rs, done, [])[p].(name := CanonicalName(rs, k), duplicate := true)
        else Partly(rs, done, [])[p]
    ensures after == Partly(rs, done + [k], [])
  {
    var ks, before := KeySeq(rs), Partly(rs, done, []);
    forall p | 0 <= p < |rs|
      ensures after[p] == Partly(rs, done + [k], [])[p]
    {
      if p in Positions(ks, k) {
        var j :| 0 <= j < |Positions(ks, k)| && Positions(ks, k)[j] == p;
        assert Key(rs[p]) == k;
      } else if Key(rs[p]) == k {
        PositionsComplete(ks, k, p);
      }
    }
  }

  /** One duplicate group of finalize's loop over the keys, from the state before it to the state after it. */
  lemma {:induction false} GroupStep(rs: seq<Ref>, keys: seq<string>, i: nat, names: map<string, string>, no: nat, list: seq<nat>, name: string,
                  cur: seq<Ref>, nm: map<string, string>, next: seq<Ref>, nm': map<string, string>)
    requires keys == KeysInOrder(KeySeq(rs)) && i < |keys| && list == Positions(KeySeq(rs), keys[i]) && |list| > 1
    requires no == 1 + DupCount(KeySeq(rs), keys[..i])
    requires cur == Partly(rs, keys[..i], []) && nm == RenameKeys(rs, keys[..i], names)
    requires var best := Longest(NamesAt(cur, list)); name == if |best| > 0 then best else "dd:" + NatToString(no)
    requires |next| == |cur|
    requires forall p :: 0 <= p < |next| ==> next[p] == if p in list then cur[p].(name := name, duplicate := true) else cur[p]
    requires nm' == RenameGroup(cur, list, name, nm)
    ensures no + 1 == 1 + DupCount(KeySeq(rs), keys[..i + 1])
    ensures next == Partly(rs, keys[..i + 1], [])
    ensures nm' == RenameKeys(rs, keys[..i + 1], names)
  {
    var ks, k := KeySeq(rs), keys[i];
    OrdinalAt(ks, i);
    KeyStep(rs, keys, i, names);
    GroupStepName(rs, keys, i, no, list, name, cur);
    RenameSameNames(cur, rs, list, name, nm);
    GroupFinalized(rs, keys[..i], k, next);
  }

  /** The name finalize's loop picks for a group is the group's shared name. */
  lemma {:induction false} GroupStepName(rs: seq<Ref>, keys: seq<string>, i: nat, no: nat, list: seq<nat>, name: string, cur: seq<Ref>)
    requires keys == KeysInOrder(KeySeq(rs)) && i < |keys| && list == Positions(KeySeq(rs), keys[i])
    requires no == 1 + DupCount(KeySeq(rs), keys[..i]) && cur == Partly(rs, keys[..i], [])
    requires var best := Longest(NamesAt(cur, list)); name == if |best| > 0 then best else "dd:" + NatToString(no)
    ensures forall j :: 0 <= j < |list| ==> list[j] < |cur| && cur[list[j]].name == rs[list[j]].name
    ensures name == CanonicalName(rs, keys[i])
  {
    var k := keys[i];
    OrdinalAt(KeySeq(rs), i);
    PartlyMembers(rs, keys[..i], k);
    assert NamesAt(cur, list) == NamesAt(rs, list);
  }

  /** A key of finalize's loop whose group has one ref: nothing changes but the key counts as done. */
  lemma {:induction false} SingleStep(rs: seq<Ref>, keys: seq<string>, i: nat, names: map<string, string>, no: nat, cur: seq<Ref>)
    requires keys == KeysInOrder(KeySeq(rs)) && i < |keys| && |Positions(KeySeq(rs), keys[i])| <= 1
    requires no == 1 + DupCount(KeySeq(rs), keys[..i]) && cur == Partly(rs, keys[..i], [])
    ensures no == 1 + DupCount(KeySeq(rs), keys[..i + 1])
    ensures cur == Partly(rs, keys[..i + 1], [])
    ensures RenameKeys(rs, keys[..i + 1], names) == RenameKeys(rs, keys[..i], names)
  {
    KeyStep(rs, keys, i, names);
    PartlySingle(rs, keys[..i], keys[i]);
  }

  /** A key without duplicates needs no work to count as done. */
  lemma {:induction false} PartlySingle(rs: seq<Ref>, done: seq<string>, k: string)
    requires !IsDupKey(KeySeq(rs), k)
    ensures Partly(rs, done, []) == Partly(rs, done + [k], [])
  {
  }

  /** With every key done, the refs are the finalized ones. */
  lemma {:induction false} PartlyAll(rs: seq<Ref>, keys: seq<string>)
    requires keys == KeysInOrder(KeySeq(rs))
    ensures Partly(rs, keys, []) == Finalized(rs)
  {
    forall p | 0 <= p < |rs|
      ensures Key(rs[p]) in keys
    {
      assert KeySeq(rs)[p] == Key(rs[p]);
    }
  }

  /** finalize changes only names and duplicate flags, so the keys stay as they were. */
  lemma {:induction false} FinalizedKeys(rs: seq<Ref>)
    ensures KeySeq(Finalized(rs)) == KeySeq(rs)
  {
  }

  lemma {:induction false} FinalizedGroups(rs: seq<Ref>, refMap: map<string, seq<nat>>, keys: seq<string>)
    requires keys == KeysInOrder(KeySeq(rs)) && GroupsMatch(rs, refMap, keys)
    ensures keys == KeysInOrder(KeySeq(Finalized(rs))) && GroupsMatch(Finalized(rs), refMap, keys)
  {
    FinalizedKeys(rs);
  }

  lemma {:induction false} FinalizedFlags(rs: seq<Ref>)
    requires NoneSkipped(rs) && FirstMarksOpeners(rs)
    ensures NoneSkipped(Finalized(rs)) && FirstMarksOpeners(Finalized(rs))
  {
    var f := Finalized(rs);
    FinalizedKeys(rs);
    forall i | 0 <= i < |f| ensures !f[i].skip && (f[i].first <==> Find(KeySeq(f), Key(f[i])) == i) {
      assert f[i].skip == rs[i].skip && f[i].first == rs[i].first && Key(f[i]) == Key(rs[i]);
    }
  }

  /** finalize keeps the registry consistent. */
  lemma {:induction false} FinalizedConsistent(rs: seq<Ref>, refMap: map<string, seq<nat>>, keys: seq<string>, f: seq<Ref>)
    requires Consistent(rs, refMap, keys) && f == Finalized(rs)
    ensures Consistent(f, refMap, keys)
  {
    FinalizedGroups(rs, refMap, keys);
    FinalizedFlags(rs);
  }



  // ---------------------------------------------------------------- what finalize promises

  /**
   * The name picked from a group's names is at least as long as every one of them, empty only
   * when all are, and otherwise the first name of that length.
   */
  lemma {:induction false} LongestSpec(ns: seq<string>)
    ensures forall j :: 0 <= j < |ns| ==> |ns[j]| <= |Longest(ns)|
    ensures Longest(ns) == "" <==> forall j :: 0 <= j < |ns| ==> ns[j] == ""
    ensures Longest(ns) != "" ==>
      exists j :: 0 <= j < |ns| && ns[j] == Longest(ns) && forall i :: 0 <= i < j ==> |ns[i]| < |ns[j]|
    decreases |ns|
  {
    if ns != [] {
      var init, n := ns[..|ns| - 1], ns[|ns| - 1];
      LongestSpec(init);
      var best := Longest(init);
      assert forall j :: 0 <= j < |init| ==> ns[j] == init[j];
      if |n| > 0 && |n| > |best| {
        assert ns[|ns| - 1] == Longest(ns);
      } else if best != "" {
        var j :| 0 <= j < |init| && init[j] == best && forall i :: 0 <= i < j ==> |init[i]| < |init[j]|;
        assert ns[j] == Longest(ns);
      }
    }
  }

  /** Visiting more keys never lowers the number of duplicate groups met, and a duplicate key adds one. */
  lemma {:induction false} DupCountGrows(ks: seq<string>, keys: seq<string>, a: nat, b: nat)
    requires a <= b <= |keys|
    ensures DupCount(ks, keys[..a]) + (if a < b && IsDupKey(ks, keys[a]) then 1 else 0) <= DupCount(ks, keys[..b])
    decreases b - a
  {
    if a < b {
      assert keys[..b][..b - 1] == keys[..b - 1];
      if a < b - 1 {
        DupCountGrows(ks, keys, a, b - 1);
      }
    }
  }

  /**
   * The numbers of `dd:` names count the duplicate groups: two different duplicate keys get
   * different numbers, each between 1 and the number of duplicate groups.
   */
  lemma {:induction false} OrdinalsDistinct(ks: seq<string>, k1: string, k2: string)
    requires k1 in ks && k2 in ks && k1 != k2 && IsDupKey(ks, k1) && IsDupKey(ks, k2)
    ensures Ordinal(ks, k1) != Ordinal(ks, k2)
    ensures 1 <= Ordinal(ks, k1) <= DupCount(ks, KeysInOrder(ks))
  {
    var order := KeysInOrder(ks);
    var f1, f2 := Find(order, k1), Find(order, k2);
    assert order[..|order|] == order;
    DupCountGrows(ks, order, f1, |order|);
    if f1 < f2 {
      DupCountGrows(ks, order, f1, f2);
    } else {
      DupCountGrows(ks, order, f2, f1);
    }
  }

  /** Two duplicate groups without any named member get different `dd:` names. */
  lemma {:induction false} UnnamedGroupsDistinct(rs: seq<Ref>, k1: string, k2: string)
    requires k1 in KeySeq(rs) && k2 in KeySeq(rs) && k1 != k2
    requires IsDupKey(KeySeq(rs), k1) && IsDupKey(KeySeq(rs), k2)
    requires forall p :: 0 <= p < |rs| && (Key(rs[p]) == k1 || Key(rs[p]) == k2) ==> rs[p].name == ""
    ensures CanonicalName(rs, k1) != CanonicalName(rs, k2)
    ensures CanonicalName(rs, k1) == "dd:" + NatToString(Ordinal(KeySeq(rs), k1))
  {
    UnnamedGroup(rs, k1);
    UnnamedGroup(rs, k2);
    OrdinalsDistinct(KeySeq(rs), k1, k2);
    DdNamesDistinct(Ordinal(KeySeq(rs), k1), Ordinal(KeySeq(rs), k2));
  }

  /** A group without a named member is named by its number. */
  lemma {:induction false} UnnamedGroup(rs: seq<Ref>, k: string)
    requires forall p :: 0 <= p < |rs| && Key(rs[p]) == k ==> rs[p].name == ""
    ensures CanonicalName(rs, k) == "dd:" + NatToString(Ordinal(KeySeq(rs), k))
  {
    LongestSpec(NamesAt(rs, Positions(KeySeq(rs), k)));
  }

  lemma {:induction false} DdNamesDistinct(m: nat, n: nat)
    requires m != n
    ensures "dd:" + NatToString(m) != "dd:" + NatToString(n)
  {
    assert ("dd:" + NatToString(m))[3..] == NatToString(m);
    assert ("dd:" + NatToString(n))[3..] == NatToString(n);
  }

  /** Some ref at the positions `ps` is named `x`. */
  predicate HasMemberNamed(rs: seq<Ref>, ps: seq<nat>, x: string)
    requires forall j :: 0 <= j < |ps| ==> ps[j] < |rs|
  {
    exists j :: 0 <= j < |ps| && rs[ps[j]].name == x
  }

  /** Renaming a group maps each member's name to the group's name and leaves every other entry. */
  lemma {:induction false} RenameGroupAt(rs: seq<Ref>, ps: seq<nat>, name: string, nm: map<string, string>, x: string)
    requires forall j :: 0 <= j < |ps| ==> ps[j] < |rs|
    ensures x in RenameGroup(rs, ps, name, nm) <==> x in nm || HasMemberNamed(rs, ps, x)
    ensures HasMemberNamed(rs, ps, x) ==> RenameGroup(rs, ps, name, nm)[x] == name
    ensures !HasMemberNamed(rs, ps, x) && x in nm ==> RenameGroup(rs, ps, name, nm)[x] == nm[x]
    decreases |ps|
  {
    if ps != [] {
      var init := ps[..|ps| - 1];
      RenameGroupAt(rs, init, name, nm, x);
      if HasMemberNamed(rs, ps, x) && rs[ps[|ps| - 1]].name != x {
        var j :| 0 <= j < |ps| && rs[ps[j]].name == x;
        assert init[j] == ps[j];
      }
      if HasMemberNamed(rs, init, x) {
        var j :| 0 <= j < |init| && rs[init[j]].name == x;
        assert ps[j] == init[j];
      }
    }
  }

  /** Some duplicate group among `keys` has a member named `x`. */
  predicate GroupsNameIt(rs: seq<Ref>, keys: seq<string>, x: string)
  {
    exists i :: 0 <= i < |keys| && IsDupKey(KeySeq(rs), keys[i]) && HasMemberNamed(rs, Positions(KeySeq(rs), keys[i]), x)
  }

  lemma {:induction false} GroupsNameItStep(rs: seq<Ref>, keys: seq<string>, x: string)
    requires keys != []
    ensures var k := keys[|keys| - 1];
      GroupsNameIt(rs, keys, x) <==>
        GroupsNameIt(rs, keys[..|keys| - 1], x) || (IsDupKey(KeySeq(rs), k) && HasMemberNamed(rs, Positions(KeySeq(rs), k), x))
  {
    var init := keys[..|keys| - 1];
    if GroupsNameIt(rs, keys, x) {
      var i :| 0 <= i < |keys| && IsDupKey(KeySeq(rs), keys[i]) && HasMemberNamed(rs, Positions(KeySeq(rs), keys[i]), x);
      if i < |init| {
        assert init[i] == keys[i];
      }
    }
    if GroupsNameIt(rs, init, x) {
      var i :| 0 <= i < |init| && IsDupKey(KeySeq(rs), init[i]) && HasMemberNamed(rs, Positions(KeySeq(rs), init[i]), x);
      assert keys[i] == init[i];
    }
  }

  /** The keys of nameMap after visiting `keys`: the old ones and the names of duplicate-group members. */
  lemma {:induction false} RenameKeysDomain(rs: seq<Ref>, keys: seq<string>, nm: map<string, string>, x: string)
    ensures x in RenameKeys(rs, keys, nm) <==> x in nm || GroupsNameIt(rs, keys, x)
    decreases |keys|
  {
    if keys != [] {
      var init, k := keys[..|keys| - 1], keys[|keys| - 1];
      RenameKeysDomain(rs, init, nm, x);
      GroupsNameItStep(rs, keys, x);
      if IsDupKey(KeySeq(rs), k) {
        RenameGroupAt(rs, Positions(KeySeq(rs), k), CanonicalName(rs, k), RenameKeys(rs, init, nm), x);
      }
    }
  }

  /** A name used in one duplicate group only ends up mapped to that group's name. */
  lemma {:induction false} RenameKeysValue(rs: seq<Ref>, keys: seq<string>, nm: map<string, string>, x: string, k: string)
    requires k in keys && IsDupKey(KeySeq(rs), k) && HasMemberNamed(rs, Positions(KeySeq(rs), k), x)
    requires forall i :: 0 <= i < |keys| && keys[i] != k && IsDupKey(KeySeq(rs), keys[i]) ==>
      !HasMemberNamed(rs, Positions(KeySeq(rs), keys[i]), x)
    ensures x in RenameKeys(rs, keys, nm) && RenameKeys(rs, keys, nm)[x] == CanonicalName(rs, k)
    decreases |keys|
  {
    var init, last := keys[..|keys| - 1], keys[|keys| - 1];
    var before := RenameKeys(rs, init, nm);
    if last == k {
      RenameGroupAt(rs, Positions(KeySeq(rs), k), CanonicalName(rs, k), before, x);
    } else {
      assert keys == init + [last];
      assert forall i :: 0 <= i < |init| ==> init[i] == keys[i];
      RenameKeysValue(rs, init, nm, x, k);
      if IsDupKey(KeySeq(rs), last) {
        RenameGroupAt(rs, Positions(KeySeq(rs), last), CanonicalName(rs, last), before, x);
      }
    }
  }

  /** finalize's nameMap holds the old entries and the name of every ref in a duplicate group. */
  lemma {:induction false} RenamedDomain(rs: seq<Ref>, nm: map<string, string>, x: string)
    ensures x in Renamed(rs, nm) <==>
      (x in nm || exists p :: 0 <= p < |rs| && IsDupKey(KeySeq(rs), Key(rs[p])) && rs[p].name == x)
  {
    var ks := KeySeq(rs);
    var keys := KeysInOrder(ks);
    RenameKeysDomain(rs, keys, nm, x);
    if GroupsNameIt(rs, keys, x) {
      var i :| 0 <= i < |keys| && IsDupKey(ks, keys[i]) && HasMemberNamed(rs, Positions(ks, keys[i]), x);
      var j :| 0 <= j < |Positions(ks, keys[i])| && rs[Positions(ks, keys[i])[j]].name == x;
      var p := Positions(ks, keys[i])[j];
      assert Key(rs[p]) == ks[p] == keys[i];
    }
    if exists p :: 0 <= p < |rs| && IsDupKey(ks, Key(rs[p])) && rs[p].name == x {
      var p :| 0 <= p < |rs| && IsDupKey(ks, Key(rs[p])) && rs[p].name == x;
      MemberNamed(rs, p);
    }
  }

  /** A ref's position lies in its key's group, and its key is among the keys finalize visits. */
  lemma {:induction false} MemberNamed(rs: seq<Ref>, p: nat)
    requires p < |rs|
    ensures var ks := KeySeq(rs); var k := Key(rs[p]);
      k in KeysInOrder(ks) && HasMemberNamed(rs, Positions(ks, k), rs[p].name)
    ensures var ks := KeySeq(rs); var k := Key(rs[p]);
      IsDupKey(ks, k) ==> GroupsNameIt(rs, KeysInOrder(ks), rs[p].name)
  {
    var ks, k := KeySeq(rs), Key(rs[p]);
    assert ks[p] == k;
    PositionsComplete(ks, k, p);
    var j :| 0 <= j < |Positions(ks, k)| && Positions(ks, k)[j] == p;
    assert k in ks && k in KeysInOrder(ks);
    var i :| 0 <= i < |KeysInOrder(ks)| && KeysInOrder(ks)[i] == k;
  }

  /**
   * The nameMap entry of a duplicate ref's name is its group's name, when no other duplicate
   * group has a ref of that name (otherwise the group finalize visits last wins).
   */
  lemma {:induction false} RenamedValue(rs: seq<Ref>, nm: map<string, string>, p: nat)
    requires p < |rs| && IsDupKey(KeySeq(rs), Key(rs[p]))
    requires forall q :: 0 <= q < |rs| && rs[q].name == rs[p].name && IsDupKey(KeySeq(rs), Key(rs[q])) ==>
      Key(rs[q]) == Key(rs[p])
    ensures rs[p].name in Renamed(rs, nm) && Renamed(rs, nm)[rs[p].name] == CanonicalName(rs, Key(rs[p]))
  {
    var ks, k, x := KeySeq(rs), Key(rs[p]), rs[p].name;
    var keys := KeysInOrder(ks);
    MemberNamed(rs, p);
    forall i | 0 <= i < |keys| && keys[i] != k && IsDupKey(ks, keys[i])
      ensures !HasMemberNamed(rs, Positions(ks, keys[i]), x)
    {
      forall j | 0 <= j < |Positions(ks, keys[i])| ensures rs[Positions(ks, keys[i])[j]].name != x {
        var q := Positions(ks, keys[i])[j];
        assert Key(rs[q]) == ks[q] == keys[i];
      }
    }
    RenameKeysValue(rs, keys, nm, x, k);
  }

  // ---------------------------------------------------------------- a run of adds

  /** The refs the registry holds after `add` was handed the first `n` of `raw`, in order. */
  function AddAll(raw: seq<Ref>, n: nat): seq<Ref>
    requires n <= |raw|
  {
    if n == 0 then [] else AddRef(AddAll(raw, n - 1), raw[n - 1])
  }

  /** How many of the first `n` of `raw` are kept (not skipped). */
  function KeptCount(raw: seq<Ref>, n: nat): (c: nat)
    requires n <= |raw|
    ensures c <= n
  {
    if n == 0 then 0 else KeptCount(raw, n - 1) + (if raw[n - 1].skip then 0 else 1)
  }

  /** No kept ref before `i` has the key of ref `i`. */
  predicate OpensGroup(raw: seq<Ref>, i: nat)
    requires i < |raw|
  {
    forall j :: 0 <= j < i && !raw[j].skip ==> Key(raw[j]) != Key(raw[i])
  }

  /** Refs as the constructor makes them: not yet marked first or duplicate. */
  predicate Unmarked(raw: seq<Ref>)
  {
    forall i :: 0 <= i < |raw| ==> !raw[i].first && !raw[i].duplicate
  }

  lemma {:induction false} AddAllLength(raw: seq<Ref>, n: nat)
    requires n <= |raw|
    ensures |AddAll(raw, n)| == KeptCount(raw, n)
  {
    if n > 0 {
      AddAllLength(raw, n - 1);
    }
  }

  /** What the registry holds after `j` adds is a prefix of what it holds after `n`: `add` only appends. */
  lemma {:induction false} AddAllPrefix(raw: seq<Ref>, j: nat, n: nat)
    requires j <= n <= |raw|
    ensures |AddAll(raw, j)| <= |AddAll(raw, n)|
    ensures AddAll(raw, n)[..|AddAll(raw, j)|] == AddAll(raw, j)
    decreases n
  {
    if j < n {
      AddAllPrefix(raw, j, n - 1);
      AddAllStep(raw, n);
      var before, small := AddAll(raw, n - 1), AddAll(raw, j);
      assert AddAll(raw, n)[..|before|] == before;
      assert AddAll(raw, n)[..|small|] == before[..|small|];
    }
  }

  /** A key is held after `n` adds exactly when some kept ref among them has it. */
  lemma {:induction false} AddAllKeys(raw: seq<Ref>, n: nat, x: string)
    requires n <= |raw|
    ensures x in KeySeq(AddAll(raw, n)) <==> exists j :: 0 <= j < n && !raw[j].skip && Key(raw[j]) == x
  {
    if n > 0 {
      AddAllKeys(raw, n - 1, x);
      var before := AddAll(raw, n - 1);
      var r := raw[n - 1];
      if !r.skip {
        KeySeqAppend(before, r.(first := r.first || Key(r) !in KeySeq(before)));
      }
    }
  }

  /**
   * Kept ref `j` is the registry's entry number KeptCount(raw, j), marked first exactly when no
   * earlier kept ref has its key.
   */
  lemma {:induction false} AddAllAt(raw: seq<Ref>, j: nat, n: nat)
    requires j < n <= |raw| && !raw[j].skip && !raw[j].first
    ensures KeptCount(raw, j) < |AddAll(raw, n)|
    ensures AddAll(raw, n)[KeptCount(raw, j)] == raw[j].(first := OpensGroup(raw, j))
  {
    AddAllPrefix(raw, j + 1, n);
    AddAllLength(raw, j + 1);
    AddAllLast(raw, j);
    var p := KeptCount(raw, j);
    var small, big := AddAll(raw, j + 1), AddAll(raw, n);
    assert big[..p + 1] == small;
    assert big[p] == big[..p + 1][p];
  }

  /** The add of kept ref `j` appends it as entry KeptCount(raw, j), first when its key is new. */
  lemma {:induction false} AddAllLast(raw: seq<Ref>, j: nat)
    requires j < |raw| && !raw[j].skip && !raw[j].first
    ensures KeptCount(raw, j + 1) == KeptCount(raw, j) + 1 == |AddAll(raw, j + 1)|
    ensures AddAll(raw, j + 1)[KeptCount(raw, j)] == raw[j].(first := OpensGroup(raw, j))
  {
    AddAllKeys(raw, j, Key(raw[j]));
    AddAllLength(raw, j);
    AddAllStep(raw, j + 1);
  }

  /** One more add, spelled out: a kept ref is appended with its first flag set when its key is new. */
  lemma {:induction false} AddAllStep(raw: seq<Ref>, n: nat)
    requires 0 < n <= |raw|
    ensures var before := AddAll(raw, n - 1); var r := raw[n - 1];
      AddAll(raw, n) == if r.skip then before else before + [r.(first := r.first || Key(r) !in KeySeq(before))]
  {
  }

  /** A run of adds stores no skipped ref. */
  lemma {:induction false} AddAllKept(raw: seq<Ref>, n: nat)
    requires n <= |raw|
    ensures NoneSkipped(AddAll(raw, n))
  {
    if n > 0 {
      AddAllKept(raw, n - 1);
      AddAllStep(raw, n);
    }
  }

  /** A run of adds keeps the registry's invariant on its refs. */
  lemma {:induction false} AddAllFlags(raw: seq<Ref>, n: nat)
    requires n <= |raw| && Unmarked(raw)
    ensures NoneSkipped(AddAll(raw, n)) && FirstMarksOpeners(AddAll(raw, n))
  {
    AddAllKept(raw, n);
    if n > 0 {
      AddAllFlags(raw, n - 1);
      AddAllStep(raw, n);
      var before := AddAll(raw, n - 1);
      var r := raw[n - 1];
      if !r.skip {
        var added := r.(first := r.first || Key(r) !in KeySeq(before));
        assert !r.first;
        assert Key(added) == Key(r);
        FirstFlags(before, added);
      }
    }
  }

  /** Adding marks no ref as duplicate. */
  lemma {:induction false} AddAllUnmarked(raw: seq<Ref>, n: nat)
    requires n <= |raw| && Unmarked(raw)
    ensures forall p :: 0 <= p < |AddAll(raw, n)| ==> !AddAll(raw, n)[p].duplicate
  {
    if n > 0 {
      AddAllUnmarked(raw, n - 1);
    }
  }

  /** No key occurs twice. */
  predicate NoRepeats(ks: seq<string>)
  {
    forall a, b :: 0 <= a < b < |ks| ==> ks[a] != ks[b]
  }

  /** No two of the first `n` refs that `add` keeps share a key. */
  predicate KeptKeysDistinct(raw: seq<Ref>, n: nat)
    requires n <= |raw|
  {
    forall i, j :: 0 <= i < j < n && !raw[i].skip && !raw[j].skip ==> Key(raw[i]) != Key(raw[j])
  }

  /** When no two kept refs share a key, the registry holds no key twice. */
  lemma {:induction false} AddAllDistinct(raw: seq<Ref>, n: nat)
    requires n <= |raw| && KeptKeysDistinct(raw, n)
    ensures NoRepeats(KeySeq(AddAll(raw, n)))
  {
    if n > 0 {
      AddAllDistinct(raw, n - 1);
      AddAllStep(raw, n);
      var before := AddAll(raw, n - 1);
      var r := raw[n - 1];
      if !r.skip {
        AddAllKeys(raw, n - 1, Key(r));
        KeySeqAppend(before, r.(first := r.first || Key(r) !in KeySeq(before)));
        var ks := KeySeq(before);
        assert forall a :: 0 <= a < |ks| ==> ks[a] in ks;
      }
    }
  }

  /** A key list without repeats has no group of two. */
  lemma {:induction false} NoRepeatsNoDup(ks: seq<string>, k: string)
    requires NoRepeats(ks)
    ensures !IsDupKey(ks, k)
    decreases |ks|
  {
    if ks != [] {
      var pre := ks[..|ks| - 1];
      assert forall a :: 0 <= a < |pre| ==> pre[a] == ks[a];
      NoRepeatsNoDup(pre, k);
      if ks[|ks| - 1] == k {
        assert k !in pre;
        PositionsAbsent(pre, k);
      }
    }
  }

  lemma {:induction false} KeptCountAll(raw: seq<Ref>, n: nat)
    requires n <= |raw| && forall i :: 0 <= i < n ==> !raw[i].skip
    ensures KeptCount(raw, n) == n
  {
    if n > 0 {
      KeptCountAll(raw, n - 1);
    }
  }

  /**
   * After a run of adds and finalize, `isdup` asked at kept ref `i`'s entry with its content
   * answers with that ref, renamed and marked, when its group has two or more refs, and
   * false otherwise.
   */
  lemma {:induction false} AddAllFinalAt(raw: seq<Ref>, n: nat, i: nat, content: string)
    requires i < n <= |raw| && Unmarked(raw) && !raw[i].skip && raw[i].content == Some(content)
    ensures var added := AddAll(raw, n);
      var k := Key(raw[i]);
      DupAt(Finalized(added), KeptCount(raw, i), content) ==
        if IsDupKey(KeySeq(added), k)
        then Dup(raw[i].(first := OpensGroup(raw, i), name := CanonicalName(added, k), duplicate := true))
        else NotDup
  {
    var added := AddAll(raw, n);
    AddAllAt(raw, i, n);
    var p := KeptCount(raw, i);
    assert Key(added[p]) == Key(raw[i]);
    assert Finalized(added)[p] == FinalRef(added, p);
  }

  /** When no key is held twice, finalize changes no ref and maps no name. */
  lemma {:induction false} DistinctKeysUntouched(rs: seq<Ref>)
    requires NoRepeats(KeySeq(rs))
    ensures Finalized(rs) == rs && Renamed(rs, map[]) == map[]
  {
    var ks := KeySeq(rs);
    forall k ensures !IsDupKey(ks, k) {
      NoRepeatsNoDup(ks, k);
    }
    forall x ensures x !in Renamed(rs, map[]) {
      RenamedDomain(rs, map[], x);
    }
  }
}
