/** The parts of the groan library that the leaflet classifier consumes: atoms,
    selections of atoms, and the selection services, each modelled by the
    contract the classifier relies on. */
module Groan {

  datatype Option<T> = None | Some(value: T)

  /** One atom of the loaded system: the number it carries in the index-group
      format, its residue number and its residue name. */
  datatype Atom = Atom(gmxNumber: int, residueNumber: int, residueName: string)

  /** Selections hold references to atoms, not copies: an atom reference is an
      index into the system's atom array. */
  type AtomRef = nat
  type Selection = seq<AtomRef>

  /** Every reference of `sel` points into a system of `n` atoms. */
  predicate Refs(sel: Selection, n: nat)
  {
    forall i :: 0 <= i < |sel| ==> sel[i] < n
  }

  /** The selections of `ss` laid end to end, in order. */
  function Flatten(ss: seq<Selection>): Selection
  {
    if ss == [] then [] else Flatten(ss[..|ss| - 1]) + ss[|ss| - 1]
  }

  /** Appending `r` to one selection of `ss` adds exactly the atoms of `r` to
      the whole, once each, and nothing else. */
  lemma {:induction false} FlattenAppendAt(ss: seq<Selection>, k: nat, r: Selection)
    requires k < |ss|
    ensures multiset(Flatten(ss[k := ss[k] + r])) == multiset(Flatten(ss)) + multiset(r)
  {
    var n := |ss|;
    var ss' := ss[k := ss[k] + r];
    if k == n - 1 {
      assert ss'[..n - 1] == ss[..n - 1];
    } else {
      FlattenAppendAt(ss[..n - 1], k, r);
      assert ss'[..n - 1] == ss[..n - 1][k := ss[k] + r];
    }
  }

  /** Every atom of every selection of `ss` is an atom of `Flatten(ss)`. */
  lemma {:induction false} InFlatten(ss: seq<Selection>, j: nat, i: nat)
    requires j < |ss| && i < |ss[j]|
    ensures ss[j][i] in Flatten(ss)
  {
    var n := |ss|;
    if j < n - 1 {
      InFlatten(ss[..n - 1], j, i);
    } else {
      assert Flatten(ss) == Flatten(ss[..n - 1]) + ss[j];
    }
  }

  /** `selection_intersect(a, b)`: the atoms of `a`, in the order of `a`, that
      are also atoms of `b`. Atoms are compared by identity (reference), not by
      value. */
  function Intersect(a: Selection, b: Selection): (r: Selection)
    ensures forall i :: 0 <= i < |r| ==> r[i] in a && r[i] in b
  {
    if a == [] then []
    else
      assert a == [a[0]] + a[1..];
      (if a[0] in b then [a[0]] else []) + Intersect(a[1..], b)
  }

  /** `Intersect` keeps each atom of `a` that is in `b` as often as `a` holds
      it, and drops every other atom entirely. */
  lemma {:induction false} IntersectCount(a: Selection, b: Selection, x: AtomRef)
    ensures multiset(Intersect(a, b))[x] == if x in b then multiset(a)[x] else 0
  {
    if a != [] {
      IntersectCount(a[1..], b, x);
      assert a == [a[0]] + a[1..];
    }
  }

  /** `list_index(names, s)`: the position of the first entry of `names` equal
      to `s`, or -1 when there is none. */
  function IndexOf(names: seq<string>, s: string): (r: int)
    ensures -1 <= r < |names|
    ensures r == -1 <==> s !in names
    ensures 0 <= r ==> names[r] == s && forall j :: 0 <= j < r ==> names[j] != s
  {
    if names == [] then -1
    else if names[0] == s then 0
    else
      var k := IndexOf(names[1..], s);
      if k < 0 then -1 else k + 1
  }

  /** The position of the first atom of `sel` whose residue is named `s`, or
      `|sel|` when there is none. */
  function FirstNamed(system: seq<Atom>, sel: Selection, s: string): (p: nat)
    requires Refs(sel, |system|)
    ensures p <= |sel|
    ensures p < |sel| ==> system[sel[p]].residueName == s
    ensures forall i :: 0 <= i < p ==> system[sel[i]].residueName != s
  {
    if sel == [] then 0
    else if system[sel[0]].residueName == s then 0
    else
      var p := FirstNamed(system, sel[1..], s);
      assert forall i :: 1 <= i < |sel| ==> sel[1..][i - 1] == sel[i];
      p + 1
  }

  /** Lengthening a selection never moves an occurrence that is there. */
  lemma FirstNamedGrow(system: seq<Atom>, sel: Selection, pre: Selection, names: seq<string>)
    requires Refs(sel, |system|) && pre <= sel
    requires forall k :: 0 <= k < |names| ==> FirstNamed(system, pre, names[k]) < |pre|
    ensures forall k :: 0 <= k < |names| ==> FirstNamed(system, sel, names[k]) < |pre|
  {
    forall k | 0 <= k < |names|
      ensures FirstNamed(system, sel, names[k]) < |pre|
    {
      var q := FirstNamed(system, pre, names[k]);
      assert pre[q] == sel[q];
    }
  }

  /** `names` holds the residue name of every atom of `sel`, only names that
      occur in `sel`, and no name twice. */
  predicate NameList(system: seq<Atom>, sel: Selection, names: seq<string>)
    requires Refs(sel, |system|)
  {
    && (forall i :: 0 <= i < |sel| ==> system[sel[i]].residueName in names)
    && (forall k :: 0 <= k < |names| ==> FirstNamed(system, sel, names[k]) < |sel|)
    && (forall j, k :: 0 <= j < k < |names| ==> names[j] != names[k])
  }

  /** `selection_getresnames(sel)`: the distinct residue names of the atoms of
      `sel`, in the order in which they first occur. */
  function ResidueNames(system: seq<Atom>, sel: Selection): (names: seq<string>)
    requires Refs(sel, |system|)
    ensures forall i :: 0 <= i < |sel| ==> system[sel[i]].residueName in names
    ensures forall k :: 0 <= k < |names| ==> FirstNamed(system, sel, names[k]) < |sel|
    ensures forall j, k :: 0 <= j < k < |names| ==> names[j] != names[k]
  {
    if sel == [] then []
    else
      var pre := sel[..|sel| - 1];
      var front := ResidueNames(system, pre);
      var name := system[sel[|sel| - 1]].residueName;
      if name in front then
        OldName(system, sel, pre, front);
        front
      else
        NewName(system, sel, pre, front);
        front + [name]
  }

  /** One more atom whose name is listed already: the list is unchanged. */
  lemma OldName(system: seq<Atom>, sel: Selection, pre: Selection, front: seq<string>)
    requires Refs(sel, |system|) && sel != [] && pre == sel[..|sel| - 1]
    requires NameList(system, pre, front)
    requires system[sel[|sel| - 1]].residueName in front
    ensures NameList(system, sel, front)
  {
    assert forall i :: 0 <= i < |sel| - 1 ==> pre[i] == sel[i];
    FirstNamedGrow(system, sel, pre, front);
  }

  /** One more atom with a new name: the name joins the end of the list. */
  lemma NewName(system: seq<Atom>, sel: Selection, pre: Selection, front: seq<string>)
    requires Refs(sel, |system|) && sel != [] && pre == sel[..|sel| - 1]
    requires NameList(system, pre, front)
    requires system[sel[|sel| - 1]].residueName !in front
    ensures NameList(system, sel, front + [system[sel[|sel| - 1]].residueName])
  {
    var n := |sel|;
    var name := system[sel[n - 1]].residueName;
    var ns := front + [name];
    forall i | 0 <= i < n
      ensures system[sel[i]].residueName in ns
    {
      if i < n - 1 {
        assert pre[i] == sel[i];
        assert system[pre[i]].residueName in front;
      } else {
        assert ns[|front|] == name;
      }
    }
    FirstNamedGrow(system, sel, pre, front);
    forall k | 0 <= k < |ns|
      ensures FirstNamed(system, sel, ns[k]) < n
    {
      if k < |front| {
        assert ns[k] == front[k];
      } else {
        assert FirstNamed(system, sel, name) <= n - 1;
      }
    }
    forall j, k | 0 <= j < k < |ns|
      ensures ns[j] != ns[k]
    {
      assert ns[j] == front[j];
      if k < |front| {
        assert ns[k] == front[k];
      }
    }
  }

  /** The names of a prefix of `sel` are a prefix of the names of `sel`: a
      later atom never moves a name already listed. */
  lemma {:induction false} ResidueNamesPrefix(system: seq<Atom>, sel: Selection, m: nat)
    requires Refs(sel, |system|) && m <= |sel|
    ensures ResidueNames(system, sel[..m]) <= ResidueNames(system, sel)
  {
    if m == |sel| {
      assert sel[..m] == sel;
    } else {
      var pre := sel[..|sel| - 1];
      assert Refs(pre, |system|);
      ResidueNamesPrefix(system, pre, m);
      assert pre[..m] == sel[..m];
      ResidueNamesSnoc(system, sel, pre);
      PrefixTrans(ResidueNames(system, sel[..m]), ResidueNames(system, pre), ResidueNames(system, sel));
    }
  }

  lemma ResidueNamesSnoc(system: seq<Atom>, sel: Selection, pre: Selection)
    requires Refs(sel, |system|) && sel != [] && pre == sel[..|sel| - 1]
    ensures ResidueNames(system, pre) <= ResidueNames(system, sel)
  {
  }

  lemma PrefixTrans(a: seq<string>, b: seq<string>, c: seq<string>)
    requires a <= b && b <= c
    ensures a <= c
  {
    assert c[..|a|] == b[..|a|];
  }

  /** `selection_getresnames` lists the names in the order in which they first
      occur in `sel`: of two listed names, the earlier one first occurs at an
      earlier atom. */
  lemma ResidueNamesOrder(system: seq<Atom>, sel: Selection, j: nat, k: nat)
    requires Refs(sel, |system|) && j < k < |ResidueNames(system, sel)|
    ensures FirstNamed(system, sel, ResidueNames(system, sel)[j])
            < FirstNamed(system, sel, ResidueNames(system, sel)[k]) < |sel|
  {
    var names := ResidueNames(system, sel);
    var p := FirstNamed(system, sel, names[k]);
    var pre := sel[..p + 1];
    assert Refs(pre, |system|);
    var front := ResidueNames(system, pre);
    ResidueNamesPrefix(system, sel, p + 1);
    assert pre[p] == sel[p];
    var q :| 0 <= q < |front| && front[q] == names[k];
    assert names[q] == names[k];
    assert front[j] == names[j];
    EarlierName(system, sel, pre, names[j], names[k]);
  }

  /** A name occurring in `pre`, a prefix of `sel` ending at the first atom
      named `b`, other than `b`, first occurs before that atom. */
  lemma EarlierName(system: seq<Atom>, sel: Selection, pre: Selection, a: string, b: string)
    requires Refs(sel, |system|) && pre != [] && pre <= sel && a != b
    requires FirstNamed(system, sel, b) == |pre| - 1
    requires FirstNamed(system, pre, a) < |pre|
    ensures FirstNamed(system, sel, a) < |pre| - 1
  {
    var q := FirstNamed(system, pre, a);
    assert pre[q] == sel[q];
  }

  /** What `selection_splitbyres(membrane)` promises of the residues it
      returns: together they hold exactly the atoms of `membrane` (each as
      often as `membrane` does), no residue is empty, every reference points
      into the system, and all atoms of one residue share its residue number. */
  predicate IsResidueSplit(system: seq<Atom>, membrane: Selection, rs: seq<Selection>)
  {
    && multiset(Flatten(rs)) == multiset(membrane)
    && (forall j :: 0 <= j < |rs| ==> rs[j] != [] && Refs(rs[j], |system|))
    && (forall j, i :: 0 <= j < |rs| && 0 <= i < |rs[j]| ==>
          system[rs[j][i]].residueNumber == system[rs[j][0]].residueNumber)
  }
}
