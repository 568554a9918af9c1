# chadtree path-set reducer, in Dafny

chadtree's filesystem operations include a small path-set reducer,
`ancestors` and `unify_ancestors` in `chadtree/fs/ops.py`. Before a batch of
recursive removals or copies, callers use it to keep only the paths that no
other path in the batch contains. Each subtree is then handled once, from its
topmost requested root.

This project models the reducer and proves what it guarantees:

- `pure_path.dfy`, module `PurePaths`: models the POSIX `pathlib.PurePath`
  operations that `ancestors` depends on. Parsing a path string gives its root
  (`""`, `"/"` or `"//"`) and its parts. Parsing splits the string on `/` and
  drops empty and `.` pieces. `str()` renders a parsed path back to a string.
  Rendering and reparsing is the normalisation the source applies to every
  ancestor. The module proves that round trip and what it does to a trailing
  separator.
- `ops.dfy`, module `Ops`: `Ancestors` and `UnifyAncestors` over strings,
  exactly as the source computes them. It proves the properties of the
  ancestor relation and of the reduction:
  - subset;
  - antichain;
  - idempotence;
  - coverage;
  - the reduction is the only subset of the input that is an antichain and
    covers the input;
  - reducing does not change which paths a recursive operation reaches;
  - each path lies below at most one kept root, so it is reached once.
- `scenarios.dfy`, module `Scenarios`: instances on a directory with two
  files, first for any names and then for `/tmp/a`, `x.txt` and `y.txt`.

Paths stay strings, as in the source, so the model needs no precondition
that inputs are normalised. Ancestors are rendered by `str()`, so they are
always in normal form. A member below a root written with a trailing
separator, such as `"/tmp/a/"`, is therefore never an ancestor of anything,
including `"/tmp/a/x.txt"`. The roots `/` and `//` are the exception: they
end with a separator and are ancestors of every path below them. One might
expect `{"/tmp/a/", "/tmp/a/x.txt"}` to reduce to the single root `/tmp/a`.
The code keeps both paths, because `ancestors("/tmp/a/x.txt")` is
`{"/tmp/a", "/tmp", "/"}`. The model follows the code
(`Scenarios.TrailingSeparatorKeepsBoth`). It also shows that normalising the
members first gives the single root (`Scenarios.NormalisingFirstCollapses`).

## Model

| member | source | states |
|---|---|---|
| PurePaths.LeadingSlashes | chadtree/fs/ops.py:21 | the count of leading separators that `PurePath` uses to choose the root: every counted character is `/` and the next one is not |
| PurePaths.RootOf | chadtree/fs/ops.py:21 | the root that a run of leading separators denotes: none gives the relative root, exactly two give `//`, any other number gives `/` |
| PurePaths.Split | chadtree/fs/ops.py:21 | splitting on `/` gives at least one piece, no piece contains `/`, and joining the pieces with `/` gives back the string |
| PurePaths.SplitJoin | chadtree/fs/ops.py:21 | splitting undoes joining for pieces without separators |
| PurePaths.Significant | chadtree/fs/ops.py:21 | the parts kept from the split pieces are exactly those that are neither empty nor `.`, and there are no more of them than pieces |
| PurePaths.SignificantSingle | chadtree/fs/ops.py:21 | a single piece is kept exactly when it is neither empty nor `.` |
| PurePaths.SignificantAppend | chadtree/fs/ops.py:21 | filtering distributes over concatenation, so the kept pieces stay in their order, repeats included |
| PurePaths.Parse | chadtree/fs/ops.py:21 | `PurePath(path)` has a known root and only significant parts, and is relative exactly when the string does not start with `/` |
| PurePaths.Str | chadtree/fs/ops.py:21 | `str()` of a parsed path is never empty |
| PurePaths.ParseStr | chadtree/fs/ops.py:21 | parsing the rendering of a parsed path gives back that path |
| PurePaths.StrInjective | chadtree/fs/ops.py:21 | two parsed paths render to the same string exactly when they are equal |
| PurePaths.Normalise | chadtree/fs/ops.py:21 | the normal form of a path string parses to the same path as the string |
| PurePaths.NormaliseCanonical | chadtree/fs/ops.py:21 | two path strings have the same normal form exactly when they parse to the same path |
| PurePaths.NormaliseIdempotent | chadtree/fs/ops.py:21 | normalising a normal form changes nothing |
| PurePaths.StrIsNormal | chadtree/fs/ops.py:21 | every rendered parent is in normal form |
| PurePaths.TrailingSeparatorIgnored | chadtree/fs/ops.py:21 | appending `/` to a path below a root gives the same parsed path, and the result is not in normal form |
| Ops.Ancestors | chadtree/fs/ops.py:20-21 | every path below a root has its root (`.` for a relative path) among its ancestors |
| Ops.AncestorsCharacterised | chadtree/fs/ops.py:20-21 | `a` is an ancestor of `path` exactly when `a` is in normal form, has the same root, and has a proper prefix of the parts of `path` |
| Ops.AncestorIsShorter | chadtree/fs/ops.py:20-21 | an ancestor has strictly fewer parts than its descendant |
| Ops.NotOwnAncestor | chadtree/fs/ops.py:20-21 | a path is never its own ancestor |
| Ops.NoAncestorsIffTop | chadtree/fs/ops.py:20-21 | a path has no ancestors exactly when it has no parts, as for `/`, `//` and `.` |
| Ops.RootIsAncestor | chadtree/fs/ops.py:20-21 | `/` is an ancestor of every absolute path below it |
| Ops.AncestorsTransitive | chadtree/fs/ops.py:20-21 | the ancestors of an ancestor of `path` are ancestors of `path` |
| Ops.AncestorsOfNormalForm | chadtree/fs/ops.py:20-21 | a path and its normal form have the same ancestors |
| Ops.AncestorCount | chadtree/fs/ops.py:20-21 | a path has exactly one ancestor per part, so one per level up to and including its root |
| Ops.OnlyNormalAncestors | chadtree/fs/ops.py:20-21 | only normal-form strings are ancestors, so a path below a root that ends with `/` is never an ancestor |
| Ops.UnifyAncestors | chadtree/fs/ops.py:24-25 | the result is a subset of the input, and no member of the result is an ancestor of another |
| Ops.UnifyMembership | chadtree/fs/ops.py:24-25 | a path is kept exactly when it is in the input and none of its ancestors is; this is the definition itself, stated as a lemma for callers, and needs no proof |
| Ops.UnifyIdempotent | chadtree/fs/ops.py:24-25 | reducing the result again gives the result |
| Ops.UnifyCovers | chadtree/fs/ops.py:24-25 | every input path is kept or has a kept ancestor |
| Ops.UnifyUnique | chadtree/fs/ops.py:24-25 | any subset of the input that is an antichain and covers every input path equals the result |
| Ops.UnifyPreservesCoverage | chadtree/fs/ops.py:24-25 | a path lies in the subtree of a kept path exactly when it lies in the subtree of an input path |
| Ops.AncestorsChain | chadtree/fs/ops.py:20-21 | two ancestors of one path are equal, or one is an ancestor of the other |
| Ops.CoveredOnce | chadtree/fs/ops.py:24-25 | a path lies in the subtree of at most one kept root, so a recursive operation over the result reaches it once |
| Scenarios.DirAncestors | chadtree/fs/ops.py:20-21 | the ancestors of `/t/a` are `/t` and `/` |
| Scenarios.FileAncestors | chadtree/fs/ops.py:20-21 | the ancestors of `/t/a/n` are `/t/a`, `/t` and `/` |
| Scenarios.DirectoryAbsorbsFilesAt | chadtree/fs/ops.py:24-25 | a directory listed with two of its files reduces to the directory alone |
| Scenarios.TrailingSeparatorKeepsBothAt | chadtree/fs/ops.py:20-25 | a directory written with a trailing `/` is not an ancestor of its file, and both are kept |
| Scenarios.NormalisingFirstCollapsesAt | chadtree/fs/ops.py:20-25 | normalising the trailing-`/` directory before reducing leaves the directory alone |
| Scenarios.TmpLayoutRendered | chadtree/fs/ops.py:21 | the parsed paths of the example render to `/tmp/a`, `/tmp/a/`, `/tmp/a/x.txt` and `/tmp/a/y.txt` |
| Scenarios.DirectoryAbsorbsFiles | chadtree/fs/ops.py:24-25 | `{/tmp/a, /tmp/a/x.txt, /tmp/a/y.txt}` reduces to `{/tmp/a}` |
| Scenarios.TrailingSeparatorKeepsBoth | chadtree/fs/ops.py:20-25 | `/tmp/a/` is not an ancestor of `/tmp/a/x.txt`, and `{/tmp/a/, /tmp/a/x.txt}` is left unchanged |
| Scenarios.NormalisingFirstCollapses | chadtree/fs/ops.py:20-25 | `/tmp/a/` normalises to `/tmp/a`, and with it `{/tmp/a, /tmp/a/x.txt}` reduces to `{/tmp/a}` |

## Left out

- `fs_stat` and `FSstat` (ops.py:28-80): they depend on `stat` and `readlink` system calls, the library `filemode` formatter, and a clock conversion of a floating-point modification time. None of these is modelled.
- `_get_username` and `_get_groupname` (ops.py:38-61): lookups in the system user and group databases, chosen by platform when the module loads. Their only local behaviour is falling back to the decimal id on a missing entry.
- `_new`, `_rename`, `_remove`, `_cut` and `_copy` (ops.py:83-133): they only dispatch to `makedirs`, `touch`, `shutil.move`, `rmtree`, `os.remove`, `copytree` and `copy2`, whose behaviour is the operating system's. This includes `_new`'s trailing-separator test for directories (ops.py:84), which only chooses between two of those calls.
- `new`, `rename`, `remove`, `cut` and `copy` (ops.py:92-138): they fan work out over a shared thread pool, and concurrency is not modelled.
- The Windows path flavour, with drives and `\` separators, is not modelled: `PurePaths` follows the POSIX flavour only.
- The literal example paths are stated through the parsed paths they render from (`Scenarios.TmpLayoutRendered`), not as literal strings inside the reductions.
