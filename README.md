# leaflets2ndx: classifying membrane lipids into leaflets

leaflets2ndx reads a membrane from a coordinate file, decides for every lipid
whether it sits in the upper or the lower leaflet, and writes one index group
per (residue name, leaflet) pair in the index-group text format. This project
models the core of `main.c` and proves properties of that model:

- `create_groups` is in `leaflets.dfy`, module `Leaflets`. Each residue of the
  membrane needs exactly one head atom. The residue is upper when that head
  lies strictly above the membrane centre along z, and lower otherwise. Its
  atoms are appended to group `2 * slot + leaflet`, where `slot` is the
  position of its residue name. The first malformed residue abandons the pass.
  `CreateGroups` is the in-place loop over an array of groups. It is proved
  equal to the functional specification `Classify`/`Place`. The lemmas beside
  it state:
  - fail-fast behaviour and which error wins;
  - the partition of the membrane atoms among the groups;
  - each group's exact contents;
  - the group names.
- `write_ndx_group` is in `ndx.dfy`, module `Ndx`. It writes a `[ name ]`
  header, then each atom number formatted `%4ld` and followed by a space, with
  fifteen numbers to a line. `WriteNdxGroup` is the loop, proved to produce
  `GroupText`. The lemmas prove that the numbers read back in order and count
  the lines.
- The output loop of `main` is in `report.dfy`, module `Report`. Group `i` is
  named after residue name `i / 2`, with `_lower` or `_upper` by parity. Empty
  groups are skipped unless `-e` is given. A group without a name stops the
  output with an internal error. `Run` strings `main` together, from the
  non-empty membrane and head selections to the text written and the exit
  status.
- The groan library services that the core calls are in `groan.dfy`, module
  `Groan`, each modelled by its contract:
  - `selection_intersect` and `list_index` become total functions.
  - `selection_getresnames` becomes a total function.
  - `selection_splitbyres` becomes the predicate `IsResidueSplit` on a
    residue list passed in.

Atoms are modelled as indices into the system's atom sequence, so selections
share atoms by identity, as the pointer arrays of the source do. The centre of
geometry and the minimum-image distances are inputs (`Geometry`): either the
centre could not be computed, or every atom's signed z-distance from the
centre is given. Only the sign of that distance matters.

## Model

| member | source | states |
|---|---|---|
| Groan.Intersect | main.c:143 | every atom kept for a residue is an atom of the residue and of the head selection |
| Groan.IntersectCount | main.c:143 | the intersection keeps each residue atom that is a head exactly as often as the residue holds it, and no other atom |
| Groan.IndexOf | main.c:170 | the slot of a residue name is -1 exactly when the name is not listed; otherwise it lies below the list length, holds the name, and no earlier slot does |
| Groan.ResidueNames | main.c:259 | the name list holds the residue name of every membrane atom, and no name twice; every listed name occurs at some atom (its first atom, `FirstNamed`, lies inside the selection) |
| Groan.ResidueNamesPrefix | main.c:259 | the names of any prefix of the selection are a prefix of its names: a later atom never moves a name already listed |
| Groan.ResidueNamesOrder | main.c:259 | the names are listed in order of first occurrence: of two listed names, the earlier one's first atom comes before the later one's, which fixes each name's slot and so the order in which the groups are written |
| Groan.FlattenAppendAt | main.c:183 | appending a residue to one group adds exactly that residue's atoms to the whole and nothing else |
| Leaflets.GroupIndex | main.c:183 | group `2 * slot + leaflet` gives back its slot as `k / 2` and its leaflet as `k % 2` |
| Leaflets.GroupNameInjective | main.c:302-307 | with distinct residue names, two groups with the same name are the same group |
| Leaflets.Target | main.c:140-183 | a residue's target group always lies below twice the number of residue names, which is the number of groups allocated |
| Leaflets.TargetMeaning | main.c:140-183 | a residue has a target exactly when it has one head and its name is listed; the target's slot is the name's position; the target is upper exactly when the head's distance is `> 0`; no head, several heads and an unlisted name each give their own error, checked in that order |
| Leaflets.Place | main.c:129-136 | a successful pass yields twice the number of residue names groups, all pointing into the system |
| Leaflets.CreateGroups | main.c:103-195 | the array updated in place ends equal to the specification's groups on success, with count twice the number of residue names; every failure (no residues, no centre, a bad residue) returns 0 and NULL; the count is 0 exactly when no groups are returned |
| Leaflets.Abandon | main.c:143-181 | a residue without exactly one head, or with an unlisted name, fails the whole pass |
| Leaflets.Advance | main.c:164-183 | a good residue is appended, after the existing atoms, to the group of its slot and leaflet, and that group exists |
| Leaflets.FailFast | main.c:143-181 | once a prefix of the residues fails, the whole pass fails with the same error, whatever follows |
| Leaflets.PlaceOk | main.c:139-186 | the pass succeeds exactly when every residue has a target group |
| Leaflets.SuccessNeedsNames | main.c:129-191 | a successful pass over a non-empty residue list implies at least one residue name, so success never returns the failure count 0 |
| Leaflets.FirstErrorWins | main.c:139-181 | the pass fails with the error of the first failing residue |
| Leaflets.PlaceContents | main.c:139-186 | on success each group is the in-order concatenation of exactly the residues whose target it is (the reference `Gather`) |
| Leaflets.PlacePartition | main.c:139-186 | on success the groups together hold every residue atom exactly as often as the residues do, and nothing else |
| Leaflets.GroupsOnlyGrow | main.c:183 | nothing is ever removed: the groups after any prefix of the residues are prefixes of the final groups |
| Leaflets.TargetName | main.c:140-170 | the group a residue lands in is named after the residue's name, with `_upper` when its head is strictly above the centre and `_lower` otherwise, a distance of exactly 0 included |
| Leaflets.NoInternalError | main.c:170-181 | with the membrane's own residue names, the unlisted-name error is impossible |
| Leaflets.AllTargetsOk | main.c:143-181 | with one head per residue and the membrane's own names, every residue has a target |
| Leaflets.ClassifySucceeds | main.c:103-195 | with one head per residue, a known centre and the membrane's own names, the pass succeeds with twice the number of residue names groups (at least two) that together hold every membrane atom exactly as often as the membrane does |
| Ndx.WriteNdxGroup | main.c:92-100 | the text written is the header followed by one entry per atom, in order (`GroupText`) |
| Ndx.DecimalRoundTrip | main.c:96 | the `%ld` form of any number reads back as that number |
| Ndx.PadLeftShape | main.c:96 | `%4ld` pads on the left with spaces to at least four characters and never truncates |
| Ndx.EntryNewlines | main.c:96-98 | entry `k` (0-based) holds exactly one line break, as its last character, when `k + 1` is a multiple of 15 or it is the last entry; otherwise it holds none and ends with the separating space |
| Ndx.ReadBack | main.c:94-99 | the body after the header splits on white space into exactly the atom numbers, in order |
| Ndx.GroupLines | main.c:94-99 | a group of `n` atoms takes one header line and `ceil(n / 15)` number lines; an empty group writes only `[ name ]` and a line break |
| Report.FirstUnnamed | main.c:289-300 | the internal-error check stops at the least written group whose slot lies beyond the residue names |
| Report.WriteGroups | main.c:289-311 | the loop reports success exactly when no written group lacks a name; the text is the named blocks of the written groups, in group order, up to the first unnamed one |
| Report.AllNamed | main.c:294-300 | with twice the number of residue names groups or fewer, as `create_groups` returns, the internal-error branch is never taken |
| Report.WrittenAtoms | main.c:291-309 | with or without `-e`, the atoms written are exactly the atoms of all the groups, in group order |
| Report.NoEmptyBlocks | main.c:291 | without `-e` no empty group is written |
| Report.EveryBlock | main.c:291-309 | with `-e` every group is written, in order, under the name `names[i / 2]` with `_lower` or `_upper` by parity |
| Report.KeptIndices | main.c:291 | the positions of the written groups are, in increasing order, exactly the groups kept: all of them with `-e`, the non-empty ones without |
| Report.BlockOrigins | main.c:289-309 | with or without `-e`, there is one block per kept group, in group order, and block `j` is kept group `k` with its atoms under the name `names[k / 2]` with `_lower` or `_upper` by parity |
| Report.BlockNamesDistinct | main.c:302-307 | with distinct residue names, no two written groups share a name |
| Report.Run | main.c:235-311 | the exit status is 0 exactly when the membrane and the heads are non-empty and the pass succeeds; on success the output is every written group of the pass; otherwise it is nothing and the status is 1 |

## Left out

- Command-line parsing (`get_arguments`, `print_usage`) is left out; it is glue over `getopt`.
- Loading the coordinate file, reading the input index file and evaluating selection queries (`load_gro`, `read_ndx`, `smart_select`) are left out. The membrane and head selections are inputs. The "could not understand the selection query" exit is not modelled.
- Opening the output file, and choosing between standard output, append and create, is left out as file I/O. The written text is returned instead, and the "could not be opened" exit is not modelled.
- `center_of_geometry` and `distance1D` are left out: periodic-boundary arithmetic in floating point inside groan. They are replaced by the `Geometry` input, and distances are reals.
- `selection_splitbyres` is left out: any residue list satisfying `IsResidueSplit` is accepted, so the model does not fix one particular split order.
- Memory management is left out as bookkeeping without behaviour. This covers `calloc`, `free`, `destroy_selections` and the capacity array that starts at 64 atoms per group. In particular, output groups are values, so the source freeing them after a failure is modelled as returning no groups.
- Report.WriteGroups: group names are not truncated to 99 characters, and the 100-byte buffer is not modelled. The name is plain concatenation, so a residue name long enough to overflow the buffer with its suffix is not represented.
- Ndx.WriteNdxGroup: the integer width of the atom number in groan is not part of this model. `%ld` is modelled for unbounded integers.
- The standard-error messages are left out as text. Each failure keeps its kind in `Leaflets.Error`, with the residue name and number where the source prints them.
