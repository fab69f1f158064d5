# dhall-to-ds record walk, modelled in Dafny

`dhall-to-ds` evaluates a Dhall record to YAML and splits it into one YAML
file per resource. The decoded record is an untyped three-level mapping,
component → kind → name → contents. `main` walks it and does three things
as it goes:

- It checks that each component value is a mapping, and so is each kind value.
- For each component it creates the directory `<output>/<lower(component)>`.
- It writes each resource's contents to `<output>/<lower(component)>/<name>.<kind>.yaml`.

The first error of any kind ends the process through `logFatal`. Nothing
written before that error is undone.

This project models that walk (main.go:142-177) over an abstract
filesystem and proves what it promises.

- `values.dfy` (`Values`): the decoded YAML value. A `Mapping` is a
  `map[string]interface{}`. A `KeyedMapping` is a mapping with a non-string
  key, which Go decodes to a different type and the walk therefore rejects.
  Everything else is opaque contents.
- `results.dfy` (`Results`): the fatal errors (`InvalidComponent`,
  `InvalidKind`, `MkdirFailed`, `WriteFailed`, `ReadFailed`), plus `Option`
  and `Result`.
- `paths.dfy` (`Paths`): the path rule of main.go:157 (`ComponentDir`) and
  main.go:169 (`LeafPath`), and what it does and does not keep apart.
- `disk.dfy` (`Disk`): the filesystem is a set of created directories plus
  a map from path to stored contents. `MakeDirAll` and `WriteFile` are the
  successful `os.MkdirAll` (main.go:142, 157) and `writeYaml` (main.go:101-114).
  A fault oracle gives the paths at which either one reports an error.
- `record.dfy` (`Record`): the document as a sequence of resources (`Leaves`),
  its valid shape (`WellShaped`), and a validate-first reader (`Decompose`)
  that reports the first shape error in iteration order.
- `walk.dfy` (`Walk`): the three nested loops, exactly as written.
  Validation is interleaved with directory creation and writes.
- `plan.dfy` (`Plan`): the walk flattened into the list of effects it
  attempts, with an executor (`Execute`) that stops at the first failing
  effect, as `logFatal` (main.go:70-73) does. The
  walk is proved equal to executing its plan, which states fail-fast as
  "exactly a prefix of the effects happens".
- `properties.dfy` (`Properties`): the whole-run theorems about `Convert`.

Go's map iteration order is random (main.go:152, 162, 168). Each mapping is
therefore a sequence of entries. Every property is proved for every
sequence, so it holds for any iteration order.

Two consequences of the code that are easy to miss:

- The walk validates while it writes. A non-mapping component or kind is
  found only when the walk reaches it. By then the files of earlier
  components are on disk, and for a bad kind so is its own component's
  directory (`ConvertFailFast`, `InvalidKindAfterComponentDir`). When the
  run stops on a shape error, that error is the same first error a
  validate-first reader reports (`ConvertReportsFirstShapeError`). A
  filesystem fault earlier in iteration order is reported instead.
- The path rule is not injective, even apart from components that differ
  only in case. The resource "a.b" of kind "yaml" and the resource "a" of
  kind "b.yaml" share the file `a.b.yaml.yaml` (`DottedNamesCollide`). The
  rule is injective once component names hold no '/' and either resource
  names or kinds hold no '.' (`LeafPathInjective`,
  `LeafPathInjectivePlainKinds`).

## Model

| member | source | states |
|---|---|---|
| `Paths.Lower` | main.go:157 | Lower-casing keeps the length, leaves no upper-case ASCII letter, changes only 'A'..'Z', and shifts those to their lower-case letter |
| `Paths.LeafPathComponentCaseInsensitive` | main.go:169 | For the same kind and name, two components give the same file exactly when they are equal after lower-casing |
| `Paths.LeafPathKindVerbatim` | main.go:169 | The kind is not case-folded: two kinds give the same file only when they are equal |
| `Paths.LeafPathNameVerbatim` | main.go:169 | The resource name is not case-folded: two names give the same file only when they are equal |
| `Paths.LeafPathInjective` | main.go:169 | When component names hold no '/' and resource names hold no '.', equal paths mean equal lower-cased component, kind and name |
| `Paths.LeafPathInjectivePlainKinds` | main.go:169 | When component names hold no '/' and kinds hold no '.', equal paths mean equal lower-cased component, kind and name, even for dotted resource names |
| `Paths.DottedNamesCollide` | main.go:169 | Two different (kind, name) pairs with dots in them resolve to the same file |
| `Disk.Stored` | main.go:101-114 | After a sequence of writes, the files are the old ones plus the written paths, and an unwritten file keeps its contents |
| `Disk.StoredLastWriteWins` | main.go:102 | `os.Create` truncates, so a path holds the contents of the last write to it |
| `Record.NameLeaves` | main.go:168-170 | The resources of one kind are exactly its (name, contents) entries, each tagged with the component and kind, one per entry |
| `Record.KindLeaves` | main.go:162-170 | The resources of a component are exactly the entries of its mapping-valued kinds |
| `Record.Leaves` | main.go:152-170 | The resources of the record are exactly the leaves under its mapping-valued components and kinds |
| `Record.DecomposeKinds` | main.go:162-166 | Succeeds exactly when every kind is a mapping, yielding the component's resources; otherwise names the first non-mapping kind |
| `Record.Decompose` | main.go:152-166 | Succeeds exactly when the record is well shaped, yielding all its resources; otherwise reports the first shape error in iteration order, with everything before it well shaped |
| `Record.LeavesDistinct` | main.go:169 | No two resources share a file when component names differ after lower-casing and hold no '/', kinds and resource names are distinct, and in each component either the names or the kinds hold no '.' |
| `Walk.WalkNames` | main.go:168-175 | The resource loop creates no directory, deletes no file, and can fail only on a refused write of one of its own resource files |
| `Walk.WalkKinds` | main.go:162-176 | The kind loop creates no directory and deletes no file. A write error names a refused file of this component. Any other error is the first non-mapping kind |
| `Walk.WalkComponents` | main.go:152-177 | The component loop only adds directories and files. Each error names a refused path it needed or the first shape error. A kind error happens after its component's directory exists |
| `Walk.Convert` | main.go:142-150 | The output directory is created before the record is read. If that fails, nothing changes. If reading fails, only the output directory is new and no file is written |
| `Walk.WalkNamesCompletes` | main.go:168-175 | The resource loop finishes exactly when none of its files is refused, and then has stored every resource in order |
| `Walk.WalkKindsCompletes` | main.go:162-176 | The kind loop finishes exactly when every kind is a mapping and no file is refused, and then has stored every resource in order |
| `Walk.WalkComponentsCompletes` | main.go:152-177 | The component loop finishes exactly when the shape is valid and no directory or file is refused, and then has created every component directory and stored every resource in order |
| `Plan.ExecuteFailFast` | main.go:70-73 | A run applies exactly the effects before the first failing one, keeps them, and reports that effect's error |
| `Plan.WalkComponentsFollowsPlan` | main.go:152-177 | The nested walk is exactly the flat plan (mkdir, then that component's writes, or a rejection) run by the fail-fast executor |
| `Plan.PlanWritesAreLeaves` | main.go:168-171 | The writes the walk attempts are the record's resources, in order, each with its contents passed through unchanged |
| `Plan.ExecuteKeepsWritePrefix` | main.go:171-174 | Whatever happens, the files left are the old ones plus the first n planned writes. A failed write is write number n |
| `Properties.ConvertSucceedsIff` | main.go:142-177 | A run ends without error exactly when the output directory is made, the record is read and well shaped, and no component directory or resource file is refused |
| `Properties.ConvertWritesExactlyTheLeaves` | main.go:152-177 | After success the new directories are the output and component directories. The files are the old ones plus one per resource path. Other files are untouched, and each path holds its last resource's contents |
| `Properties.ConvertStoresEveryLeaf` | main.go:168-171 | In a document whose paths cannot collide, success leaves every resource's contents unchanged in its own file |
| `Properties.ConvertReportsFirstShapeError` | main.go:152-166 | A reported shape error is the validate-first reader's error. It names a non-mapping component, or a non-mapping kind of a mapping component, with everything earlier well shaped |
| `Properties.HealthyRunAgreesWithDecompose` | main.go:152-166 | On a filesystem that refuses nothing, a run ends as the validate-first reader says: done, or the first shape error |
| `Properties.InvalidKindAfterComponentDir` | main.go:157-166 | When a kind is found not to be a mapping, its component's directory already exists |
| `Properties.ConvertFailFast` | main.go:157-174 | The final filesystem is the planned effects up to the first failure, applied in order. The run succeeds exactly when nothing fails, and otherwise reports that failure |
| `Properties.ConvertKeepsEarlierWrites` | main.go:168-174 | The files on disk are the old ones plus the first n resources written in order. A failed write is resource n's, and nothing after it is written |
| `Properties.CaseVariantComponentsOverwrite` | main.go:157-171 | Two components equal up to case share a directory. The same resource in both is written twice without error, and the later contents win |
| `Properties.ContentsNeverInspected` | main.go:168-171 | Documents that differ only in resource contents give runs with the same ending, the same directories and the same file paths |
| `Properties.SingleResourceExample` | main.go:142-177 | {Api: {service: {frontend: C}}} under /out creates /out and /out/api and writes C to /out/api/frontend.service.yaml |
| `Properties.InvalidComponentExample` | main.go:152-156 | {Api: "not-a-mapping"} stops with InvalidComponent("Api") after creating only /out |

## Left out

- `dhallToYaml` and `readRecord` (main.go:75-99): running the external evaluator and decoding its YAML. The result of `readRecord` is a parameter of `Convert`: the decoded document, or `None` for any failure.
- YAML encoding in `writeYaml` (main.go:111-113): contents are opaque values, and a successful write stores the value itself. Serialisation failures are folded into the write fault oracle.
- A failed `writeYaml` is modelled as leaving its path untouched. In the program, `os.Create` (main.go:102) creates or truncates the file before `Encode` runs, so a failure in `Encode` or in a buffer flush can leave the path empty or partly written. Whether it does depends on where the failure happens, and the fault oracle does not say.
- Plan.ExecuteKeepsWritePrefix: its exact file state assumes a failed write leaves its path as it was, although `os.Create` may already have created or truncated it.
- Properties.ConvertFailFast: its exact final filesystem does not include the empty or partial file that a failed `writeYaml` may leave at the failing path.
- Properties.ConvertKeepsEarlierWrites: "the old files plus the first n resources" does not include the failing write's possible truncation of its own path.
- The error of the deferred `bw.Flush()` is dropped by `writeYaml` (main.go:109). Write success is whatever `os.Create` and `Encode` report, which the fault oracle decides.
- `filepath.Join` path cleaning (`..`, repeated or trailing `/`, empty elements) and Unicode `strings.ToLower`: `Join` is plain "/" concatenation and `Lower` is ASCII only.
- `os.MkdirAll` creating missing parent directories: the model records only the path passed to it.
- The fault oracle is a fixed set of failing paths. A path that fails once fails every time in a run, and a failure that depends on earlier effects is not modelled.
- Command-line parsing, help, version, missing-flag exits, `usageArgs`, `versionString` and log15 setup (main.go:33-68, main.go:116-140): formatting and glue over libraries.
- File permissions (`0777`) and `os.Exit`: a fatal error is a terminal `Fatal` status, and the outcome's filesystem is what the process leaves behind.
