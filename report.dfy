/** The output stage of `main`: the groups of `create_groups` are written in
    group order, each under the name of its residue-name slot and leaflet.
    Without `-e` empty groups are skipped. A written group whose slot lies
    beyond the residue names stops the output with an internal error. */
module Report {
  import opened Groan
  import opened Leaflets
  import opened Ndx

  /** A group as written: its name and its atoms. */
  datatype Block = Block(name: string, atoms: Selection)

  /** `list_get(list, k)`: item `k`, or NULL when the list is shorter. */
  function ListGet(names: seq<string>, k: nat): Option<string>
  {
    if k < |names| then Some(names[k]) else None
  }

  /** Group `i` is written when empty groups were requested (`-e`) or when it
      holds atoms. */
  predicate Kept(groups: seq<Selection>, empty: bool, i: nat)
    requires i < |groups|
  {
    empty || |groups[i]| != 0
  }

  /** Among the first `i` groups, the first one that is written but has no
      residue name (its slot `k / 2` lies beyond the names); `i` when every
      written group among them has a name. */
  function FirstUnnamed(names: seq<string>, groups: seq<Selection>, empty: bool, i: nat): (f: nat)
    requires i <= |groups|
    ensures f <= i
    ensures forall k :: 0 <= k < f && Kept(groups, empty, k) ==> k / 2 < |names|
    ensures f < i ==> Kept(groups, empty, f) && f / 2 >= |names|
  {
    if i == 0 then 0
    else
      var f := FirstUnnamed(names, groups, empty, i - 1);
      if f < i - 1 then f
      else if Kept(groups, empty, i - 1) && (i - 1) / 2 >= |names| then i - 1
      else i
  }

  /** The written groups among the first `i`, named, in group order. */
  function Blocks(names: seq<string>, groups: seq<Selection>, empty: bool, i: nat): (bs: seq<Block>)
    requires i <= |groups|
    requires forall k :: 0 <= k < i && Kept(groups, empty, k) ==> k / 2 < |names|
  {
    if i == 0 then []
    else
      Blocks(names, groups, empty, i - 1)
        + (if Kept(groups, empty, i - 1) then [Block(GroupName(names, i - 1), groups[i - 1])] else [])
  }

  predicate BlocksRefs(system: seq<Atom>, bs: seq<Block>)
  {
    forall j :: 0 <= j < |bs| ==> Refs(bs[j].atoms, |system|)
  }

  predicate GroupsRefs(system: seq<Atom>, groups: seq<Selection>)
  {
    forall k :: 0 <= k < |groups| ==> Refs(groups[k], |system|)
  }

  /** The text of the blocks `bs`, one group after the other. */
  function Render(system: seq<Atom>, bs: seq<Block>): string
    requires BlocksRefs(system, bs)
  {
    if bs == [] then ""
    else
      var b := bs[|bs| - 1];
      Render(system, bs[..|bs| - 1]) + GroupText(b.name, Numbers(system, b.atoms))
  }

  /** The atoms written, in the order written. */
  function Written(bs: seq<Block>): Selection
  {
    if bs == [] then [] else Written(bs[..|bs| - 1]) + bs[|bs| - 1].atoms
  }

  /** The loop over the output groups in `main`. Returns the text written and
      whether the loop finished without the internal error. */
  method WriteGroups(system: seq<Atom>, names: seq<string>, groups: seq<Selection>, empty: bool)
    returns (text: string, ok: bool)
    requires GroupsRefs(system, groups)
    ensures ok <==> FirstUnnamed(names, groups, empty, |groups|) == |groups|
    ensures text == Output(system, names, groups, empty)
  {
    text := "";
    var i := 0;
    while i < |groups|
      invariant Wrote(system, names, groups, empty, i, text)
    {
      if !empty && |groups[i]| == 0 {
        SkipStep(system, names, groups, empty, i, text);
        i := i + 1;
        continue;
      }
      var resname := ListGet(names, i / 2);
      if resname.None? {
        StopAt(system, names, groups, empty, i, text);
        return text, false;
      }
      var groupName := resname.value + (if i % 2 == 0 then "_lower" else "_upper");
      var block := WriteNdxGroup(system, groupName, groups[i]);
      WriteStep(system, names, groups, empty, i, text, groupName, block);
      text := text + block;
      i := i + 1;
    }
    StopAt(system, names, groups, empty, i, text);
    ok := true;
  }

  /** After `i` groups the loop has found no written group without a name
      and has written the blocks of the first `i` groups. */
  predicate Wrote(system: seq<Atom>, names: seq<string>, groups: seq<Selection>, empty: bool,
                  i: nat, text: string)
    requires GroupsRefs(system, groups)
  {
    && i <= |groups|
    && FirstUnnamed(names, groups, empty, i) == i
    && BlocksRefs(system, Blocks(names, groups, empty, i))
    && text == Render(system, Blocks(names, groups, empty, i))
  }

  /** What the output loop writes: the blocks up to the first written group
      without a name. */
  function Output(system: seq<Atom>, names: seq<string>, groups: seq<Selection>, empty: bool): string
    requires GroupsRefs(system, groups)
  {
    var f := FirstUnnamed(names, groups, empty, |groups|);
    BlocksHaveRefs(system, names, groups, empty, f);
    Render(system, Blocks(names, groups, empty, f))
  }

  /** The loop stops at group `i`, either at the end or at a written group
      without a name, having written the blocks before it. */
  lemma StopAt(system: seq<Atom>, names: seq<string>, groups: seq<Selection>, empty: bool, i: nat, text: string)
    requires GroupsRefs(system, groups) && Wrote(system, names, groups, empty, i, text)
    requires i < |groups| ==> Kept(groups, empty, i) && i / 2 >= |names|
    ensures FirstUnnamed(names, groups, empty, |groups|) == i
    ensures text == Output(system, names, groups, empty)
  {
    FirstUnnamedIs(names, groups, empty, |groups|, i);
  }

  /** `FirstUnnamed` is the least written, unnamed group: any `f` with that
      property is it. */
  lemma FirstUnnamedIs(names: seq<string>, groups: seq<Selection>, empty: bool, i: nat, f: nat)
    requires i <= |groups| && f <= i
    requires forall k :: 0 <= k < f && Kept(groups, empty, k) ==> k / 2 < |names|
    requires f < i ==> Kept(groups, empty, f) && f / 2 >= |names|
    ensures FirstUnnamed(names, groups, empty, i) == f
  {
  }

  lemma {:induction false} BlocksHaveRefs(system: seq<Atom>, names: seq<string>, groups: seq<Selection>, empty: bool, i: nat)
    requires i <= |groups| && GroupsRefs(system, groups)
    requires forall k :: 0 <= k < i && Kept(groups, empty, k) ==> k / 2 < |names|
    ensures BlocksRefs(system, Blocks(names, groups, empty, i))
  {
    if i > 0 {
      BlocksHaveRefs(system, names, groups, empty, i - 1);
    }
  }

  /** A group that is not written changes neither the text nor the first
      unnamed group. */
  lemma SkipStep(system: seq<Atom>, names: seq<string>, groups: seq<Selection>, empty: bool, i: nat, text: string)
    requires GroupsRefs(system, groups) && i < |groups| && Wrote(system, names, groups, empty, i, text)
    requires !Kept(groups, empty, i)
    ensures Wrote(system, names, groups, empty, i + 1, text)
  {
    assert Blocks(names, groups, empty, i) + [] == Blocks(names, groups, empty, i);
  }

  /** A written group with a name adds its own text. */
  lemma WriteStep(system: seq<Atom>, names: seq<string>, groups: seq<Selection>, empty: bool, i: nat,
                  text: string, groupName: string, block: string)
    requires i < |groups| && GroupsRefs(system, groups) && Wrote(system, names, groups, empty, i, text)
    requires Kept(groups, empty, i) && i / 2 < |names|
    requires groupName == names[i / 2] + (if i % 2 == 0 then "_lower" else "_upper")
    requires block == GroupText(groupName, Numbers(system, groups[i]))
    ensures Wrote(system, names, groups, empty, i + 1, text + block)
  {
    var bs := Blocks(names, groups, empty, i);
    var b := Block(GroupName(names, i), groups[i]);
    assert Blocks(names, groups, empty, i + 1) == bs + [b];
    RenderSnoc(system, bs, b);
  }

  lemma RenderSnoc(system: seq<Atom>, bs: seq<Block>, b: Block)
    requires BlocksRefs(system, bs) && Refs(b.atoms, |system|)
    ensures BlocksRefs(system, bs + [b])
    ensures Render(system, bs + [b]) == Render(system, bs) + GroupText(b.name, Numbers(system, b.atoms))
  {
    assert (bs + [b])[..|bs|] == bs;
  }

  /** With at most two groups per residue name, as `create_groups` returns,
      every written group has a name and the internal error cannot occur. */
  lemma AllNamed(names: seq<string>, groups: seq<Selection>, empty: bool)
    requires |groups| <= 2 * |names|
    ensures FirstUnnamed(names, groups, empty, |groups|) == |groups|
  {
    FirstUnnamedIs(names, groups, empty, |groups|, |groups|);
  }

  /** Skipping empty groups loses no atom: with or without `-e`, the atoms
      written are exactly the atoms of the groups, in group order. */
  lemma {:induction false} WrittenAtoms(names: seq<string>, groups: seq<Selection>, empty: bool, i: nat)
    requires i <= |groups|
    requires forall k :: 0 <= k < i && Kept(groups, empty, k) ==> k / 2 < |names|
    ensures Written(Blocks(names, groups, empty, i)) == Flatten(groups[..i])
  {
    if i > 0 {
      var pre := Blocks(names, groups, empty, i - 1);
      WrittenAtoms(names, groups, empty, i - 1);
      assert groups[..i][..i - 1] == groups[..i - 1];
      if Kept(groups, empty, i - 1) {
        var b := Block(GroupName(names, i - 1), groups[i - 1]);
        assert (pre + [b])[..|pre|] == pre;
      } else {
        assert pre + [] == pre;
        assert Flatten(groups[..i]) == Flatten(groups[..i - 1]) + [];
      }
    }
  }

  /** Without `-e` no written group is empty. */
  lemma {:induction false} NoEmptyBlocks(names: seq<string>, groups: seq<Selection>, i: nat)
    requires i <= |groups|
    requires forall k :: 0 <= k < i && Kept(groups, false, k) ==> k / 2 < |names|
    ensures forall j :: 0 <= j < |Blocks(names, groups, false, i)| ==> Blocks(names, groups, false, i)[j].atoms != []
  {
    if i > 0 {
      NoEmptyBlocks(names, groups, i - 1);
    }
  }

  /** With `-e` every group is written, in group order, under its own name. */
  lemma {:induction false} EveryBlock(names: seq<string>, groups: seq<Selection>, i: nat)
    requires i <= |groups| && i <= 2 * |names|
    ensures |Blocks(names, groups, true, i)| == i
    ensures forall k :: 0 <= k < i ==> Blocks(names, groups, true, i)[k] == Block(GroupName(names, k), groups[k])
  {
    if i > 0 {
      EveryBlock(names, groups, i - 1);
      var pre := Blocks(names, groups, true, i - 1);
      assert Blocks(names, groups, true, i) == pre + [Block(GroupName(names, i - 1), groups[i - 1])];
    }
  }

  /** The positions of the written groups among the first `i`, in increasing
      order: exactly the groups kept by `Kept`. */
  function KeptIndices(groups: seq<Selection>, empty: bool, i: nat): (ks: seq<nat>)
    requires i <= |groups|
    ensures forall j :: 0 <= j < |ks| ==> ks[j] < i && Kept(groups, empty, ks[j])
    ensures forall j, l :: 0 <= j < l < |ks| ==> ks[j] < ks[l]
    ensures forall k :: 0 <= k < i && Kept(groups, empty, k) ==> k in ks
  {
    if i == 0 then []
    else
      var pre := KeptIndices(groups, empty, i - 1);
      if Kept(groups, empty, i - 1) then pre + [i - 1] else pre
  }

  /** With or without `-e`, the blocks written are the kept groups, in group
      order, each under the name of its own slot and leaflet: block `j` is
      group `KeptIndices(..)[j]`. Without `-e` these are the non-empty groups. */
  lemma {:induction false} BlockOrigins(names: seq<string>, groups: seq<Selection>, empty: bool, i: nat)
    requires i <= |groups|
    requires forall k :: 0 <= k < i && Kept(groups, empty, k) ==> k / 2 < |names|
    ensures |Blocks(names, groups, empty, i)| == |KeptIndices(groups, empty, i)|
    ensures forall j :: 0 <= j < |KeptIndices(groups, empty, i)| ==>
      var k := KeptIndices(groups, empty, i)[j];
      Blocks(names, groups, empty, i)[j] == Block(GroupName(names, k), groups[k])
  {
    if i > 0 {
      BlockOrigins(names, groups, empty, i - 1);
      var bs := Blocks(names, groups, empty, i - 1);
      var ks := KeptIndices(groups, empty, i - 1);
      if Kept(groups, empty, i - 1) {
        OriginsSnoc(bs, ks, Block(GroupName(names, i - 1), groups[i - 1]), i - 1,
                    names, groups);
      } else {
        assert Blocks(names, groups, empty, i) == bs + [];
      }
    }
  }

  lemma OriginsSnoc(bs: seq<Block>, ks: seq<nat>, b: Block, k: nat,
                    names: seq<string>, groups: seq<Selection>)
    requires |bs| == |ks| && k < |groups| && k / 2 < |names|
    requires forall j :: 0 <= j < |ks| ==> ks[j] < |groups| && ks[j] / 2 < |names|
    requires forall j :: 0 <= j < |ks| ==> bs[j] == Block(GroupName(names, ks[j]), groups[ks[j]])
    requires b == Block(GroupName(names, k), groups[k])
    ensures forall j :: 0 <= j < |ks| + 1 ==>
      (bs + [b])[j] == Block(GroupName(names, (ks + [k])[j]), groups[(ks + [k])[j]])
  {
    forall j | 0 <= j < |ks| + 1
      ensures (bs + [b])[j] == Block(GroupName(names, (ks + [k])[j]), groups[(ks + [k])[j]])
    {
      if j < |ks| {
        assert (bs + [b])[j] == bs[j] && (ks + [k])[j] == ks[j];
      }
    }
  }

  /** When the residue names are distinct, so are the names of the written
      groups; no name already written is the name of a later group. */
  lemma {:induction false} BlockNamesDistinct(names: seq<string>, groups: seq<Selection>, empty: bool, i: nat)
    requires i <= |groups| && |groups| <= 2 * |names|
    requires forall a, b :: 0 <= a < b < |names| ==> names[a] != names[b]
    ensures forall j, m :: 0 <= j < |Blocks(names, groups, empty, i)| && i <= m < 2 * |names| ==>
      Blocks(names, groups, empty, i)[j].name != GroupName(names, m)
    ensures forall j, l :: 0 <= j < l < |Blocks(names, groups, empty, i)| ==>
      Blocks(names, groups, empty, i)[j].name != Blocks(names, groups, empty, i)[l].name
  {
    if i > 0 {
      BlockNamesDistinct(names, groups, empty, i - 1);
      forall m | i <= m < 2 * |names|
        ensures GroupName(names, i - 1) != GroupName(names, m)
      {
        GroupNameInjective(names, i - 1, m);
      }
    }
  }

  /** `main` from the membrane selection onward: the membrane and head
      selections must be non-empty, the residue names are those of the
      membrane, the groups are created and then written. Returns the text
      written to the output and the exit status. */
  method Run(system: seq<Atom>, membrane: Selection, heads: Selection,
             split: Option<seq<Selection>>, geometry: Geometry, empty: bool)
    returns (text: string, status: int)
    requires Refs(membrane, |system|)
    requires split.Some? ==> IsResidueSplit(system, membrane, split.value)
    requires geometry.Centre? ==> |geometry.zOffset| == |system|
    ensures var c := Classify(system, split, heads, ResidueNames(system, membrane), geometry);
            status == 0 <==> membrane != [] && heads != [] && c.Ok?
    ensures status == 0 || (status == 1 && text == "")
    ensures status == 0 ==>
      var names := ResidueNames(system, membrane);
      var g := Classify(system, split, heads, names, geometry).value;
      |g| == 2 * |names|
      && BlocksRefs(system, Blocks(names, g, empty, |g|))
      && text == Render(system, Blocks(names, g, empty, |g|))
  {
    if membrane == [] || heads == [] {
      return "", 1;
    }
    var names := ResidueNames(system, membrane);
    var n, groups := CreateGroups(system, membrane, heads, names, split, geometry);
    if n == 0 {
      return "", 1;
    }
    var ok;
    text, ok := WriteGroups(system, names, groups.value, empty);
    AllNamed(names, groups.value, empty);
    BlocksHaveRefs(system, names, groups.value, empty, |groups.value|);
    status := if ok then 0 else 1;
  }
}
