/**
 * The `Refs` registry of the deduplicator as an object whose methods update its fields in place:
 * `add` registers a ref, `finalize` names the duplicate groups, `isdup` answers per position.
 */
module Registry {
  import opened Wrappers
  import opened Text
  import opened Attributes
  import opened Normalize
  import opened RefGroups

  /** `new Ref(attr, content)`, parsing the attributes as the source does. */
  method CreateRef(attr: string, content: string) returns (r: Ref)
    ensures r == NewRef(attr, content)
  {
    var attrs, residue := ParseAttributes(attr);
    r := RefFrom(attrs, content);
  }

  class Refs {
    /** Every added ref, in order of addition. */
    var refs: seq<Ref>
    /** normalized key -> positions in `refs` of its group, in order of addition. */
    var refMap: map<string, seq<nat>>
    /** The keys of `refMap` in insertion order. */
    var keys: seq<string>
    /** Old name -> name of the group that replaced it. */
    var nameMap: map<string, string>

    ghost predicate Valid()
      reads this
    {
      Consistent(refs, refMap, keys)
    }

    constructor ()
      ensures Valid() && refs == [] && nameMap == map[]
    {
      refs, refMap, keys, nameMap := [], map[], [], map[];
    }

    /** add: a ref without other attributes joins the group of its key; the first of a key is marked first. */
    method Add(r: Ref)
      requires Valid() && !r.first
      modifies this
      ensures Valid() && nameMap == old(nameMap)
      ensures refs == AddRef(old(refs), r)
    {
      if r.skip {
        return;
      }
      refs, refMap, keys := Register(refs, refMap, keys, r);
    }

    /** add's update of the three fields for a ref that is not skipped. */
    static method Register(rs: seq<Ref>, groups: map<string, seq<nat>>, order: seq<string>, r: Ref)
      returns (rs': seq<Ref>, groups': map<string, seq<nat>>, order': seq<string>)
      requires Consistent(rs, groups, order) && !r.first && !r.skip
      ensures Consistent(rs', groups', order') && rs' == AddRef(rs, r)
    {
      var k := Key(r);
      if k in groups {
        AddExisting(rs, groups, order, r);
        rs', groups', order' := rs + [r], groups[k := groups[k] + [|rs|]], order;
      } else {
        AddNew(rs, groups, order, r);
        rs', groups', order' := rs + [r.(first := true)], groups[k := [|rs|]], order + [k];
      }
    }

    /** finalize: every group of two or more gets one shared name, recorded in nameMap for each old name. */
    method Finalize()
      requires Valid()
      modifies this
      ensures Valid()
      ensures refs == Finalized(old(refs))
      ensures nameMap == Renamed(old(refs), old(nameMap))
    {
      var rs, nm := NameGroups(refs, nameMap, keys, refMap);
      refs, nameMap := rs, nm;
    }

    /** finalize's loop over the keys in insertion order, numbering the duplicate groups as it goes. */
    static method NameGroups(added: seq<Ref>, names: map<string, string>, order: seq<string>, groups: map<string, seq<nat>>)
      returns (rs: seq<Ref>, nm: map<string, string>)
      requires Consistent(added, groups, order)
      ensures rs == Finalized(added) && nm == Renamed(added, names)
      ensures Consistent(rs, groups, order)
    {
      rs, nm := added, names;
      ghost var ks := KeySeq(added);
      PartlyNone(added);
      assert order[..0] == [];
      var no := 1;
      for i := 0 to |order|
        invariant no == 1 + DupCount(ks, order[..i])
        invariant rs == Partly(added, order[..i], [])
        invariant nm == RenameKeys(added, order[..i], names)
      {
        var list := groups[order[i]];
        assert list == Positions(ks, order[i]);
        if |list| > 1 {
          rs, nm := NameGroup(added, names, order, i, list, no, rs, nm);
          no := no + 1;
        } else {
          SingleStep(added, order, i, names, no, rs);
        }
      }
      assert order[..|order|] == order;
      PartlyAll(added, order);
      FinalizedConsistent(added, groups, order, rs);
    }

    /** finalize's work on one duplicate group: pick its name, then rename and mark its members. */
    static method NameGroup(ghost added: seq<Ref>, ghost names: map<string, string>, ghost order: seq<string>, ghost i: nat,
                            list: seq<nat>, no: nat, rs: seq<Ref>, nm: map<string, string>)
      returns (rs': seq<Ref>, nm': map<string, string>)
      requires order == KeysInOrder(KeySeq(added)) && i < |order|
      requires list == Positions(KeySeq(added), order[i]) && |list| > 1
      requires no == 1 + DupCount(KeySeq(added), order[..i])
      requires rs == Partly(added, order[..i], []) && nm == RenameKeys(added, order[..i], names)
      ensures no + 1 == 1 + DupCount(KeySeq(added), order[..i + 1])
      ensures rs' == Partly(added, order[..i + 1], []) && nm' == RenameKeys(added, order[..i + 1], names)
    {
      var name := LongestName(rs, list);
      if |name| == 0 {
        name := "dd:" + NatToString(no);
      }
      rs', nm' := RenameMembers(rs, nm, list, name);
      GroupStep(added, order, i, names, no, list, name, rs, nm, rs', nm');
    }

    /** finalize's first pass over a group: the first of its longest non-empty names, or "". */
    static method LongestName(rs: seq<Ref>, list: seq<nat>) returns (name: string)
      requires forall j :: 0 <= j < |list| ==> list[j] < |rs|
      ensures name == Longest(NamesAt(rs, list))
    {
      name := "";
      for j := 0 to |list|
        invariant name == Longest(NamesAt(rs, list[..j]))
      {
        NamesStep(rs, list, j);
        var ref := rs[list[j]];
        if |ref.name| > 0 && |ref.name| > |name| {
          name := ref.name;
        }
      }
      assert list[..|list|] == list;
    }

    /** finalize's second pass over a group: each member takes `name` and is marked, and nameMap maps its old name to `name`. */
    static method RenameMembers(rs: seq<Ref>, nm: map<string, string>, list: seq<nat>, name: string)
      returns (rs': seq<Ref>, nm': map<string, string>)
      requires forall j :: 0 <= j < |list| ==> list[j] < |rs|
      requires forall a, b :: 0 <= a < b < |list| ==> list[a] < list[b]
      ensures |rs'| == |rs|
      ensures forall p :: 0 <= p < |rs| ==> rs'[p] == if p in list then rs[p].(name := name, duplicate := true) else rs[p]
      ensures nm' == RenameGroup(rs, list, name, nm)
    {
      rs', nm' := rs, nm;
      for j := 0 to |list|
        invariant |rs'| == |rs|
        invariant forall p :: 0 <= p < |rs| ==> rs'[p] == if p in list[..j] then rs[p].(name := name, duplicate := true) else rs[p]
        invariant nm' == RenameGroup(rs, list[..j], name, nm)
      {
        RenameStep(rs, list, j, name, nm);
        var p := list[j];
        assert p !in list[..j];
        assert list[..j + 1] == list[..j] + [p];
        nm' := nm'[rs'[p].name := name];
        rs' := rs'[p := rs'[p].(name := name, duplicate := true)];
      }
      assert list[..|list|] == list;
    }

    /** isdup: the ref at `index` when it holds `content` and is a duplicate. */
    function IsDup(index: nat, content: string): (a: DupAnswer)
      reads this
      ensures a == Undefined <==> index >= |refs|
      ensures a.Dup? <==> index < |refs| && refs[index].content == Some(content) && refs[index].duplicate
      ensures a.Dup? ==> a.ref == refs[index]
    {
      DupAt(refs, index, content)
    }
  }
}
