# MEGNet molecule neighbour search, modelled in Dafny

This project models `MEGNetMolecule.get_all_neighbors` from MEGNet's
`megnet/utils/molecule.py`. The routine works on a molecule, which is an
ordered list of sites with an all-pairs distance matrix. For every atom `i`
it returns the list of neighbour records for the atoms `j` with
`1e-8 < dist[i][j] <= cutoff`. The records come in ascending atom order.
A record is a list:

- the site `j`;
- the distance `dist[i][j]`;
- the index `j`, when `include_index` is set;
- the dummy periodic image `(0, 0, 0)`, when `include_image` is set.

Both flags default to true, in the source and in `GetAllNeighbors`.

Files:

- `boolean_mask.dfy`, module `BooleanMask`: the two numpy primitives the
  routine relies on. `Where` is `np.where(mask)[0]`; `Compress` is boolean
  indexing `row[mask]`. Both are defined as recursive functions, and the
  lemmas pin them down: `Where` is the unique ascending list of true
  positions, and `row[mask]` is aligned with it.
- `molecule.dfy`, module `Molecule`: the record type (`Entry`, a sum of site,
  distance, index and image items), the specification functions `Record`,
  `RowNeighbors` and `AllNeighbors`, and the routine itself.
  `GetAllNeighbors` is the outer loop over the rows of the matrix.
  `RowNeighborList` is the body of that loop: the mask, the indices, the
  distances, the images and the inner `zip` loop that grows each record
  item by item. Both are proved equal to the specification functions.
- `neighbor_properties.dfy`, module `NeighborProperties`: what the result
  promises. Covered: one list per row, soundness, completeness (each
  neighbour exactly once), ascending atom order, record shape, empty lists
  for a cutoff at or below `1e-8`, self-exclusion, and symmetry. It also
  proves the two-atom scenarios and an example showing that the order
  follows atom index rather than distance.

Inputs: the distance matrix is a parameter `dist: seq<seq<real>>`. It must
be square with one row and one column per site, as the molecule's own
distance matrix always is. The sites are a `seq<Site>`, where `Site` is an
opaque type. The code only compares distances and never computes with them.
The threshold `SelfTolerance` is the exact value of the double written `1e-8`
(about 1.0000000000000000209e-8, slightly above 10^-8), so for distances and
cutoffs that are doubles every comparison comes out as numpy's does.
Self-exclusion assumes that atom i's own distance is at or below that
threshold, which a zero diagonal satisfies. Symmetry assumes a symmetric
matrix. pymatgen's distance matrix provides both.

A cutoff at or above the largest pairwise distance does not always select
every other atom: the code also drops any other atom at or within `1e-8`,
such as a coincident one (`megnet/utils/molecule.py` line 34).
`LargeCutoffSelectsAllOthers` therefore requires each of atom i's
off-diagonal distances to lie in the shell `(1e-8, cutoff]`.

## Model

| member | source | states |
|---|---|---|
| `BooleanMask.Where` | megnet/utils/molecule.py:35 | every returned position is in range and true in the mask; every true position is returned; the positions are strictly ascending |
| `BooleanMask.CompressAlignsWithWhere` | megnet/utils/molecule.py:35-36 | `row[cond]` has as many elements as `np.where(cond)[0]`, and its k-th element is the row's entry at the k-th selected position, so `d` and `inds` are aligned |
| `BooleanMask.WhereIsUnique` | megnet/utils/molecule.py:35 | any strictly ascending sequence whose members are exactly the true positions of the mask equals `Where(mask)` |
| `BooleanMask.WhereOccurrences` | megnet/utils/molecule.py:35 | each true position of the mask occurs exactly once among the selected indices, and every other position never occurs |
| `Molecule.GetAllNeighbors` | megnet/utils/molecule.py:31-49 | the outer loop (lines 31-33 and 48-49, the row body being `RowNeighborList`): the result has exactly one list per row of the distance matrix, in row order, and equals the specification `AllNeighbors` |
| `Molecule.RowNeighborList` | megnet/utils/molecule.py:34-47 | the list built for one row by the zip loop and the per-item appends is the record of each selected atom, in selection order (`RowNeighbors`) |
| `NeighborProperties.NeighborIndicesExact` | megnet/utils/molecule.py:34-35 | the mask `(row <= cutoff) & (row > 1e-8)` followed by `np.where` selects atom j exactly when j is in range and `1e-8 < row[j] <= cutoff`, and selects it once, never twice |
| `NeighborProperties.NeighborSound` | megnet/utils/molecule.py:34-36 | every record in row i is the record of some atom l with `1e-8 < dist[i][l] <= cutoff`, built from `sites[l]` and `dist[i][l]` |
| `NeighborProperties.NeighborComplete` | megnet/utils/molecule.py:34-35 | every atom j with `1e-8 < dist[i][j] <= cutoff` has its record in row i, and its index appears exactly once there |
| `NeighborProperties.NeighborOrder` | megnet/utils/molecule.py:35 | records of a row are in strictly ascending atom index, and the index fields (when present) strictly ascend |
| `NeighborProperties.RecordShape` | megnet/utils/molecule.py:40-46 | a record has length `2 + [include_index] + [include_image]`; it holds the site, then the distance of the same atom, then the index if requested, and ends with the image `(0, 0, 0)` if requested |
| `NeighborProperties.SmallCutoffSelectsNothing` | megnet/utils/molecule.py:34 | for a cutoff at or below `1e-8`, including any negative cutoff, every neighbour list is empty |
| `NeighborProperties.NoSelfNeighbor` | megnet/utils/molecule.py:34 | when atom i's distance to itself is at most `1e-8`, atom i is not selected in its own row, and no record of row i carries index i |
| `NeighborProperties.NeighborSymmetric` | megnet/utils/molecule.py:34-36 | on a symmetric matrix, if atom j is selected in row i at distance d, then atom i is selected in row j and its record there has the same distance d |
| `NeighborProperties.LargeCutoffSelectsAllOthers` | megnet/utils/molecule.py:34-35 | when `dist[i][i] <= 1e-8` and each other distance in row i is in the shell, atom i's indices are all the other atoms, ascending (position k holds k below i and k + 1 from i on) |
| `NeighborProperties.TwoAtomsWithinCutoff` | megnet/utils/molecule.py:33-48 | two atoms 1.0 apart with cutoff 1.5: each list holds exactly one record, the other atom's, at distance 1.0 |
| `NeighborProperties.TwoAtomsBeyondCutoff` | megnet/utils/molecule.py:33-48 | the same two atoms with cutoff 0.5: both lists are empty |
| `NeighborProperties.OrderIsByAtomNotDistance` | megnet/utils/molecule.py:35-39 | for a concrete three-atom matrix, atom 0's farther neighbour (atom 1, distance 2.0) comes before its nearer one (atom 2, distance 1.0) |

## Left out

- `get_pmg_mol_from_smiles` (SMILES to 3D molecule): it consists entirely of calls into the Open Babel toolkit (parsing, 3D embedding). Its coordinates are implementation-defined.
- The optional import of pybel/openbabel and the warning it logs: this is module-load I/O and logging.
- `MEGNetMolecule.from_pymatgen`: a thin wrapper over pymatgen's site container.
- The computation of `self.distance_matrix`: this is floating-point Euclidean geometry inside pymatgen. The matrix is an input to the model.
- The internals of a site (species, coordinates): `Site` is opaque.
- `**kwargs`: the routine ignores it.
- Floating point: distances and the cutoff are exact reals. NaN is not modelled. numpy would compare it false and so never select it.
- Python/numpy element types: indices are `nat` and distances are `real`, where the source has numpy integers and floats.
