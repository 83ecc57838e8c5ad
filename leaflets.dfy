/** `create_groups`: split the membrane into residues, locate each residue's
    single head atom, put the residue into the upper leaflet when the head lies
    strictly above the membrane centre along z and into the lower one
    otherwise, and append its atoms to the group of its (residue name,
    leaflet) pair. Any malformed residue aborts the whole pass. */
module Leaflets {
  import opened Groan

  /** What the geometry routines of groan report for the frame: either
      `center_of_geometry` of the membrane failed, or, for every atom of the
      system, the signed minimum-image distance along z
      (`distance1D(position, center, z, box)`) of its position from the
      membrane centre. Only the sign of that distance is used. */
  datatype Geometry = CentreFailed | Centre(zOffset: seq<real>)

  /** Why a pass is abandoned; the residue-level errors carry the residue
      name and residue number of the offending residue. */
  datatype Error =
    | NoResidues
    | NoCentre
    | MissingHead(name: string, resid: int)
    | AmbiguousHead(name: string, resid: int)
    | UnknownResidueName(name: string, resid: int)

  datatype Result<T> = Ok(value: T) | Err(error: Error)

  /** Leaflet labels. */
  const Lower: nat := 0
  const Upper: nat := 1

  /** Residues as the splitter hands them over: non-empty, pointing into the
      system, and with a z-distance known for every atom. */
  predicate WellFormed(system: seq<Atom>, dz: seq<real>, rs: seq<Selection>)
  {
    |dz| == |system| && forall j :: 0 <= j < |rs| ==> rs[j] != [] && Refs(rs[j], |system|)
  }

  /** The residue name of a residue is that of its first atom. */
  function ResName(system: seq<Atom>, r: Selection): string
    requires r != [] && Refs(r, |system|)
  {
    system[r[0]].residueName
  }

  function ResNumber(system: seq<Atom>, r: Selection): int
    requires r != [] && Refs(r, |system|)
  {
    system[r[0]].residueNumber
  }

  /** The output group of residue-name slot `slot` and leaflet `leaflet`; the
      slot and the leaflet can be read back from it. */
  function GroupIndex(slot: nat, leaflet: nat): (k: nat)
    requires leaflet < 2
    ensures k / 2 == slot && k % 2 == leaflet
  {
    2 * slot + leaflet
  }

  /** The name of output group `k`: the residue name of slot `k / 2` followed
      by `_lower` for even `k` and by `_upper` for odd `k`. */
  function GroupName(names: seq<string>, k: nat): string
    requires k / 2 < |names|
  {
    names[k / 2] + (if k % 2 == 0 then "_lower" else "_upper")
  }

  /** Distinct residue names give distinct group names: the name of a group
      determines its slot and its leaflet. */
  lemma GroupNameInjective(names: seq<string>, k: nat, m: nat)
    requires forall a, b :: 0 <= a < b < |names| ==> names[a] != names[b]
    requires k / 2 < |names| && m / 2 < |names|
    ensures GroupName(names, k) == GroupName(names, m) ==> k == m
  {
    var x, y := GroupName(names, k), GroupName(names, m);
    if x == y {
      var sk, sm := x[|x| - 6..], y[|y| - 6..];
      assert sk == (if k % 2 == 0 then "_lower" else "_upper");
      assert sm == (if m % 2 == 0 then "_lower" else "_upper");
      assert k % 2 == m % 2;
      assert names[k / 2] == x[..|x| - 6] == names[m / 2];
    }
  }

  /** One iteration of the residue loop: the output group residue `r` belongs
      to, or the error that aborts the pass. */
  function Target(system: seq<Atom>, heads: Selection, names: seq<string>, dz: seq<real>,
                  r: Selection): (t: Result<nat>)
    requires |dz| == |system| && r != [] && Refs(r, |system|)
    ensures t.Ok? ==> t.value < 2 * |names|
  {
    var name, resid := ResName(system, r), ResNumber(system, r);
    var head := Intersect(r, heads);
    if |head| == 0 then Err(MissingHead(name, resid))
    else if |head| > 1 then Err(AmbiguousHead(name, resid))
    else
      assert head[0] in r;
      var leaflet := if dz[head[0]] > 0.0 then Upper else Lower;
      var slot := IndexOf(names, name);
      if slot < 0 then Err(UnknownResidueName(name, resid))
      else Ok(GroupIndex(slot, leaflet))
  }

  /** What one iteration decides: a residue has a target group exactly when
      it has a single head and its name is listed; the target's slot is the
      name's position in the list and its leaflet is upper exactly when the
      head lies strictly above the centre; a residue without a head, with
      several heads, or with an unlisted name fails with that error, checked
      in that order. */
  lemma TargetMeaning(system: seq<Atom>, heads: Selection, names: seq<string>, dz: seq<real>,
                      r: Selection)
    requires |dz| == |system| && r != [] && Refs(r, |system|)
    ensures var t := Target(system, heads, names, dz, r);
            var h := Intersect(r, heads);
            && (t.Ok? <==> |h| == 1 && IndexOf(names, ResName(system, r)) >= 0)
            && (t.Ok? ==> t.value / 2 == IndexOf(names, ResName(system, r))
                          && (t.value % 2 == Upper <==> dz[h[0]] > 0.0))
            && (t == Err(MissingHead(ResName(system, r), ResNumber(system, r))) <==> |h| == 0)
            && (t == Err(AmbiguousHead(ResName(system, r), ResNumber(system, r))) <==> |h| > 1)
            && (t == Err(UnknownResidueName(ResName(system, r), ResNumber(system, r)))
                <==> |h| == 1 && IndexOf(names, ResName(system, r)) < 0)
  {
    var h := Intersect(r, heads);
    if |h| == 1 {
      assert h[0] in r;
    }
  }

  /** The `2 * |names|` output groups, all empty, as allocated before the loop. */
  function EmptyGroups(names: seq<string>): seq<Selection>
  {
    seq(2 * |names|, _ => [])
  }

  /** The loop of `create_groups` over the residues `rs`, in order: each
      residue is appended to its target group, and the first failing residue
      abandons the pass. */
  function Place(system: seq<Atom>, heads: Selection, names: seq<string>, dz: seq<real>,
                 rs: seq<Selection>): (p: Result<seq<Selection>>)
    requires WellFormed(system, dz, rs)
    ensures p.Ok? ==> |p.value| == 2 * |names|
    ensures p.Ok? ==> forall k :: 0 <= k < |p.value| ==> Refs(p.value[k], |system|)
  {
    if rs == [] then Ok(EmptyGroups(names))
    else
      var r := rs[|rs| - 1];
      match Place(system, heads, names, dz, rs[..|rs| - 1])
      case Err(e) => Err(e)
      case Ok(g) =>
        match Target(system, heads, names, dz, r)
        case Err(e) => Err(e)
        case Ok(k) => Ok(g[k := g[k] + r])
  }

  /** The whole of `create_groups`: the splitter's result (None when it
      returned NULL), the centre, then the residue loop. */
  function Classify(system: seq<Atom>, split: Option<seq<Selection>>, heads: Selection,
                    names: seq<string>, geometry: Geometry): Result<seq<Selection>>
    requires split.Some? && geometry.Centre? ==> WellFormed(system, geometry.zOffset, split.value)
  {
    if split.None? || split.value == [] then Err(NoResidues)
    else if geometry.CentreFailed? then Err(NoCentre)
    else Place(system, heads, names, geometry.zOffset, split.value)
  }

  /** `create_groups`, updating the output groups in place. Returns the
      number of groups and the groups, or 0 and no groups (NULL) when the
      pass fails. */
  method CreateGroups(system: seq<Atom>, membrane: Selection, heads: Selection,
                      names: seq<string>, split: Option<seq<Selection>>, geometry: Geometry)
    returns (nGroups: nat, groups: Option<seq<Selection>>)
    requires split.Some? ==> IsResidueSplit(system, membrane, split.value)
    requires geometry.Centre? ==> |geometry.zOffset| == |system|
    ensures Classify(system, split, heads, names, geometry).Ok? ==>
              groups == Some(Classify(system, split, heads, names, geometry).value)
              && nGroups == 2 * |names|
    ensures Classify(system, split, heads, names, geometry).Err? ==> groups == None && nGroups == 0
    ensures nGroups == 0 <==> groups == None
  {
    if split.None? || |split.value| == 0 {
      return 0, None;
    }
    var residues := split.value;
    if geometry.CentreFailed? {
      return 0, None;
    }
    var dz := geometry.zOffset;
    var n := 2 * |names|;
    var out := new Selection[n](_ => []);
    assert out[..] == EmptyGroups(names);

    for i := 0 to |residues|
      invariant Place(system, heads, names, dz, residues[..i]) == Ok(out[..])
    {
      var r := residues[i];
      var resname := system[r[0]].residueName;
      var head := Intersect(r, heads);
      if |head| == 0 {
        Abandon(system, heads, names, dz, residues, i);
        return 0, None;
      }
      if |head| > 1 {
        Abandon(system, heads, names, dz, residues, i);
        return 0, None;
      }
      var leaflet := if dz[head[0]] > 0.0 then Upper else Lower;
      var index := IndexOf(names, resname);
      if index < 0 {
        Abandon(system, heads, names, dz, residues, i);
        return 0, None;
      }
      var k := GroupIndex(index, leaflet);
      Advance(system, heads, names, dz, residues, i, out[..], k);
      out[k] := out[k] + r;
    }
    assert residues[..|residues|] == residues;
    SuccessNeedsNames(system, heads, names, dz, residues);
    return n, Some(out[..]);
  }

  /** One more residue: the pass over `rs[..i + 1]` is the pass over
      `rs[..i]` followed by residue `i`. */
  lemma PlaceStep(system: seq<Atom>, heads: Selection, names: seq<string>,
                  dz: seq<real>, rs: seq<Selection>, i: nat)
    requires WellFormed(system, dz, rs) && i < |rs|
    ensures Place(system, heads, names, dz, rs[..i]).Ok? && Target(system, heads, names, dz, rs[i]).Err?
            ==> Place(system, heads, names, dz, rs[..i + 1]) == Err(Target(system, heads, names, dz, rs[i]).error)
    ensures Place(system, heads, names, dz, rs[..i]).Ok? && Target(system, heads, names, dz, rs[i]).Ok?
            ==> var g := Place(system, heads, names, dz, rs[..i]).value;
                var k := Target(system, heads, names, dz, rs[i]).value;
                Place(system, heads, names, dz, rs[..i + 1]) == Ok(g[k := g[k] + rs[i]])
  {
    assert rs[..i + 1][..i] == rs[..i] && rs[..i + 1][i] == rs[i];
  }

  /** A residue without a single head or with an unlisted name, reached with
      every residue before it placed, makes the whole pass fail. */
  lemma Abandon(system: seq<Atom>, heads: Selection, names: seq<string>,
                dz: seq<real>, rs: seq<Selection>, i: nat)
    requires WellFormed(system, dz, rs) && i < |rs|
    requires Place(system, heads, names, dz, rs[..i]).Ok?
    requires |Intersect(rs[i], heads)| != 1 || IndexOf(names, ResName(system, rs[i])) < 0
    ensures Place(system, heads, names, dz, rs).Err?
  {
    TargetMeaning(system, heads, names, dz, rs[i]);
    PlaceStep(system, heads, names, dz, rs, i);
    FailFast(system, heads, names, dz, rs, i + 1);
  }

  /** A residue with a single head and a listed name is appended to the group
      of its name's slot and its head's leaflet. */
  lemma Advance(system: seq<Atom>, heads: Selection, names: seq<string>,
                dz: seq<real>, rs: seq<Selection>, i: nat, g: seq<Selection>, k: nat)
    requires WellFormed(system, dz, rs) && i < |rs|
    requires Place(system, heads, names, dz, rs[..i]) == Ok(g)
    requires |Intersect(rs[i], heads)| == 1 && IndexOf(names, ResName(system, rs[i])) >= 0
    requires k == GroupIndex(IndexOf(names, ResName(system, rs[i])),
                             if dz[Intersect(rs[i], heads)[0]] > 0.0 then Upper else Lower)
    ensures k < |g|
    ensures Place(system, heads, names, dz, rs[..i + 1]) == Ok(g[k := g[k] + rs[i]])
  {
    PlaceStep(system, heads, names, dz, rs, i);
  }

  /** Fail-fast: once a prefix of the residues fails, the whole pass fails
      with that same error. */
  lemma {:induction false} FailFast(system: seq<Atom>, heads: Selection, names: seq<string>,
                                    dz: seq<real>, rs: seq<Selection>, i: nat)
    requires WellFormed(system, dz, rs) && i <= |rs|
    requires Place(system, heads, names, dz, rs[..i]).Err?
    ensures Place(system, heads, names, dz, rs) == Place(system, heads, names, dz, rs[..i])
  {
    if i < |rs| {
      var n := |rs|;
      assert rs[..n - 1][..i] == rs[..i];
      FailFast(system, heads, names, dz, rs[..n - 1], i);
      PlaceAfterErr(system, heads, names, dz, rs);
    } else {
      assert rs[..i] == rs;
    }
  }

  lemma PlaceAfterErr(system: seq<Atom>, heads: Selection, names: seq<string>,
                      dz: seq<real>, rs: seq<Selection>)
    requires WellFormed(system, dz, rs) && rs != []
    requires Place(system, heads, names, dz, rs[..|rs| - 1]).Err?
    ensures Place(system, heads, names, dz, rs) == Place(system, heads, names, dz, rs[..|rs| - 1])
  {
  }

  /** The pass succeeds exactly when every residue has a target group. */
  lemma {:induction false} PlaceOk(system: seq<Atom>, heads: Selection, names: seq<string>,
                                   dz: seq<real>, rs: seq<Selection>)
    requires WellFormed(system, dz, rs)
    ensures Place(system, heads, names, dz, rs).Ok? <==> AllPlaced(system, heads, names, dz, rs)
  {
    if rs != [] {
      PlaceOk(system, heads, names, dz, rs[..|rs| - 1]);
      PlaceOkStep(system, heads, names, dz, rs);
      if AllPlaced(system, heads, names, dz, rs) {
        AllPlacedFront(system, heads, names, dz, rs);
      }
      if AllPlaced(system, heads, names, dz, rs[..|rs| - 1]) && Target(system, heads, names, dz, rs[|rs| - 1]).Ok? {
        AllPlacedExtend(system, heads, names, dz, rs);
      }
    }
  }

  lemma PlaceOkStep(system: seq<Atom>, heads: Selection, names: seq<string>,
                    dz: seq<real>, rs: seq<Selection>)
    requires WellFormed(system, dz, rs) && rs != []
    ensures Place(system, heads, names, dz, rs).Ok?
            <==> Place(system, heads, names, dz, rs[..|rs| - 1]).Ok?
                 && Target(system, heads, names, dz, rs[|rs| - 1]).Ok?
  {
  }

  /** Every residue of `rs` has a target group. */
  predicate AllPlaced(system: seq<Atom>, heads: Selection, names: seq<string>,
                      dz: seq<real>, rs: seq<Selection>)
    requires WellFormed(system, dz, rs)
  {
    forall j :: 0 <= j < |rs| ==> Target(system, heads, names, dz, rs[j]).Ok?
  }

  lemma AllPlacedFront(system: seq<Atom>, heads: Selection, names: seq<string>,
                       dz: seq<real>, rs: seq<Selection>)
    requires WellFormed(system, dz, rs) && rs != []
    requires AllPlaced(system, heads, names, dz, rs)
    ensures AllPlaced(system, heads, names, dz, rs[..|rs| - 1])
    ensures Target(system, heads, names, dz, rs[|rs| - 1]).Ok?
  {
    var pre := rs[..|rs| - 1];
    forall j | 0 <= j < |pre|
      ensures Target(system, heads, names, dz, pre[j]).Ok?
    {
      assert pre[j] == rs[j];
    }
  }

  lemma AllPlacedExtend(system: seq<Atom>, heads: Selection, names: seq<string>,
                        dz: seq<real>, rs: seq<Selection>)
    requires WellFormed(system, dz, rs) && rs != []
    requires AllPlaced(system, heads, names, dz, rs[..|rs| - 1])
    requires Target(system, heads, names, dz, rs[|rs| - 1]).Ok?
    ensures AllPlaced(system, heads, names, dz, rs)
  {
    var pre := rs[..|rs| - 1];
    forall j | 0 <= j < |rs|
      ensures Target(system, heads, names, dz, rs[j]).Ok?
    {
      if j < |pre| {
        assert pre[j] == rs[j];
      }
    }
  }

  /** A successful pass implies at least one residue name, so the group count
      returned on success is never 0. */
  lemma SuccessNeedsNames(system: seq<Atom>, heads: Selection, names: seq<string>,
                          dz: seq<real>, rs: seq<Selection>)
    requires WellFormed(system, dz, rs) && rs != []
    requires Place(system, heads, names, dz, rs).Ok?
    ensures |names| > 0
  {
    PlaceOk(system, heads, names, dz, rs);
    assert Target(system, heads, names, dz, rs[0]).Ok?;
  }

  /** The error of a failed pass is the error of its first failing residue:
      if residue `j` fails and every residue before it succeeds, the pass
      fails with residue `j`'s error (a missing head, several heads, or an
      unknown residue name), whatever follows. */
  lemma {:induction false} FirstErrorWins(system: seq<Atom>, heads: Selection, names: seq<string>,
                                          dz: seq<real>, rs: seq<Selection>, j: nat)
    requires WellFormed(system, dz, rs) && j < |rs|
    requires forall i :: 0 <= i < j ==> Target(system, heads, names, dz, rs[i]).Ok?
    requires Target(system, heads, names, dz, rs[j]).Err?
    ensures Place(system, heads, names, dz, rs) == Err(Target(system, heads, names, dz, rs[j]).error)
  {
    var pre := rs[..j];
    forall i | 0 <= i < j
      ensures Target(system, heads, names, dz, pre[i]).Ok?
    {
      assert pre[i] == rs[i];
    }
    PlaceOk(system, heads, names, dz, pre);
    PlaceStep(system, heads, names, dz, rs, j);
    FailFast(system, heads, names, dz, rs, j + 1);
  }

  /** Independent reference for one output group: the residues whose target
      is group `k`, concatenated in traversal order. */
  function Gather(system: seq<Atom>, heads: Selection, names: seq<string>, dz: seq<real>,
                  rs: seq<Selection>, k: nat): Selection
    requires WellFormed(system, dz, rs)
  {
    if rs == [] then []
    else
      var r := rs[|rs| - 1];
      Gather(system, heads, names, dz, rs[..|rs| - 1], k)
        + (if Target(system, heads, names, dz, r) == Ok(k) then r else [])
  }

  /** On success every output group is exactly the in-order concatenation of
      the residues assigned to it. */
  lemma {:induction false} PlaceContents(system: seq<Atom>, heads: Selection, names: seq<string>,
                                         dz: seq<real>, rs: seq<Selection>)
    requires WellFormed(system, dz, rs)
    requires Place(system, heads, names, dz, rs).Ok?
    ensures forall k :: 0 <= k < 2 * |names| ==>
      Place(system, heads, names, dz, rs).value[k] == Gather(system, heads, names, dz, rs, k)
  {
    if rs != [] {
      PlaceContents(system, heads, names, dz, rs[..|rs| - 1]);
    }
  }

  /** On success the output groups hold exactly the atoms of the residues:
      every atom of every residue is in one group, once, and nothing else is. */
  lemma {:induction false} PlacePartition(system: seq<Atom>, heads: Selection, names: seq<string>,
                                          dz: seq<real>, rs: seq<Selection>)
    requires WellFormed(system, dz, rs)
    requires Place(system, heads, names, dz, rs).Ok?
    ensures multiset(Flatten(Place(system, heads, names, dz, rs).value)) == multiset(Flatten(rs))
  {
    if rs == [] {
      EmptyGroupsFlatten(2 * |names|);
    } else {
      var n := |rs|;
      var g := Place(system, heads, names, dz, rs[..n - 1]).value;
      var k := Target(system, heads, names, dz, rs[n - 1]).value;
      PlacePartition(system, heads, names, dz, rs[..n - 1]);
      FlattenAppendAt(g, k, rs[n - 1]);
    }
  }

  lemma {:induction false} EmptyGroupsFlatten(n: nat)
    ensures Flatten(seq(n, _ => [])) == []
  {
    if n > 0 {
      EmptyGroupsFlatten(n - 1);
      var e: seq<Selection> := seq(n, _ => []);
      var e': seq<Selection> := seq(n - 1, _ => []);
      assert e[..n - 1] == e';
    }
  }

  /** Nothing is ever removed: the groups after any prefix of the residues are
      prefixes of the final groups. */
  lemma {:induction false} GroupsOnlyGrow(system: seq<Atom>, heads: Selection, names: seq<string>,
                                          dz: seq<real>, rs: seq<Selection>, i: nat)
    requires WellFormed(system, dz, rs) && i <= |rs|
    requires Place(system, heads, names, dz, rs).Ok?
    ensures Place(system, heads, names, dz, rs[..i]).Ok?
    ensures forall k :: 0 <= k < 2 * |names| ==>
      Place(system, heads, names, dz, rs[..i]).value[k] <= Place(system, heads, names, dz, rs).value[k]
  {
    if i == |rs| {
      assert rs[..i] == rs;
    } else {
      var n := |rs|;
      assert rs[..n - 1][..i] == rs[..i];
      GroupsOnlyGrow(system, heads, names, dz, rs[..n - 1], i);
    }
  }

  /** The group a residue lands in is named after the residue: its residue
      name followed by `_upper` when its head lies strictly above the centre
      and `_lower` otherwise (a head exactly at the centre is lower). */
  lemma TargetName(system: seq<Atom>, heads: Selection, names: seq<string>, dz: seq<real>,
                   r: Selection)
    requires |dz| == |system| && r != [] && Refs(r, |system|)
    requires Target(system, heads, names, dz, r).Ok?
    ensures Target(system, heads, names, dz, r).value / 2 < |names|
    ensures GroupName(names, Target(system, heads, names, dz, r).value)
            == ResName(system, r) + (if dz[Intersect(r, heads)[0]] > 0.0 then "_upper" else "_lower")
  {
  }

  /** Fed the residue names of the membrane itself, the internal-error branch
      (a residue name missing from the list) can never be taken. */
  lemma NoInternalError(system: seq<Atom>, membrane: Selection, heads: Selection,
                        dz: seq<real>, rs: seq<Selection>, j: nat)
    requires Refs(membrane, |system|) && |dz| == |system|
    requires IsResidueSplit(system, membrane, rs) && j < |rs|
    ensures Target(system, heads, ResidueNames(system, membrane), dz, rs[j])
            != Err(UnknownResidueName(ResName(system, rs[j]), ResNumber(system, rs[j])))
  {
    var names := ResidueNames(system, membrane);
    InFlatten(rs, j, 0);
    assert rs[j][0] in multiset(membrane);
    var p :| 0 <= p < |membrane| && membrane[p] == rs[j][0];
    assert ResName(system, rs[j]) in names;
    TargetMeaning(system, heads, names, dz, rs[j]);
  }

  /** When every residue has exactly one head and the names are the
      membrane's own, every residue has a target group. */
  lemma AllTargetsOk(system: seq<Atom>, membrane: Selection, heads: Selection,
                     rs: seq<Selection>, dz: seq<real>)
    requires Refs(membrane, |system|) && |dz| == |system|
    requires IsResidueSplit(system, membrane, rs)
    requires forall j :: 0 <= j < |rs| ==> |Intersect(rs[j], heads)| == 1
    ensures forall j :: 0 <= j < |rs| ==>
      Target(system, heads, ResidueNames(system, membrane), dz, rs[j]).Ok?
  {
    var names := ResidueNames(system, membrane);
    forall j | 0 <= j < |rs|
      ensures Target(system, heads, names, dz, rs[j]).Ok?
    {
      NoInternalError(system, membrane, heads, dz, rs, j);
      TargetMeaning(system, heads, names, dz, rs[j]);
    }
  }

  /** End to end: when every residue has exactly one head, the centre is
      known and the names are the membrane's own, the pass succeeds with
      `2 * |names|` groups, at least two, that together hold every membrane
      atom exactly as often as the membrane does. */
  lemma ClassifySucceeds(system: seq<Atom>, membrane: Selection, heads: Selection,
                         rs: seq<Selection>, dz: seq<real>)
    requires Refs(membrane, |system|) && |dz| == |system| && membrane != []
    requires IsResidueSplit(system, membrane, rs)
    requires forall j :: 0 <= j < |rs| ==> |Intersect(rs[j], heads)| == 1
    ensures Classify(system, Some(rs), heads, ResidueNames(system, membrane), Centre(dz)).Ok?
    ensures var g := Classify(system, Some(rs), heads, ResidueNames(system, membrane), Centre(dz)).value;
            |g| == 2 * |ResidueNames(system, membrane)| && |g| > 0
            && multiset(Flatten(g)) == multiset(membrane)
  {
    var names := ResidueNames(system, membrane);
    assert |multiset(Flatten(rs))| == |membrane|;
    assert rs != [];
    AllTargetsOk(system, membrane, heads, rs, dz);
    PlaceOk(system, heads, names, dz, rs);
    PlacePartition(system, heads, names, dz, rs);
    SuccessNeedsNames(system, heads, names, dz, rs);
    assert Classify(system, Some(rs), heads, names, Centre(dz)) == Place(system, heads, names, dz, rs);
  }
}
