# Firmware module info synthesis, in Dafny

A model of the utilities in `openag/utils.py` of the OpenAg Python package.

- `synthesize_firmware_module_info` turns a catalog of firmware **modules** into fully resolved module records. Each module is an instance that names a **module type**. For each module the synthesizer does four things:
  - it copies `repository`, `header_file`, `class_name` and `dependencies` down from the type;
  - it fills the positional constructor `arguments` from the type's argument defaults, left to right;
  - it merges every input and output port descriptor the type defines with the instance's descriptor of the same name;
  - it defaults `variable` to the port's name and `categories` to `["actuators"]` for inputs or `["sensors"]` for outputs.
- `index_by_id` and `dedupe_by` keep one document per key, and the last document wins.
- `make_dir_name_from_url` derives git's "humanish" clone directory name from the path of a repository URL.

Files:

- `results.dfy` (`Results`): `Option` and `Result`. `Result` stands for a call that either returns or raises.
- `values.dfy` (`Values`): JSON values, dictionaries (`map<string, Value>`), and named port tables.
- `synthesis.dfy` (`Synthesis`): module types, modules, the synthesizer and its properties.
- `indexing.dfy` (`Indexing`): `index_by_id` and `dedupe_by`.
- `dirnames.dfy` (`DirNames`): the path part of `make_dir_name_from_url`, with string models of `os.path.split` and `os.path.splitext`.

Modelling choices:

- Module and module-type documents are typed records. Port descriptors and the type's argument entries stay plain dictionaries, because the overlay copies every key the instance sets, not only `variable` and `categories`.
- An absent `arguments`, `inputs` or `outputs` field is modelled as the empty one, as the code's `.get(..., [])` and `.get(..., {})` make them.
- Every other field of a module document is kept in `others` and carried through unchanged.
- A `RuntimeError` or `KeyError` that aborts the call becomes a `Failure` result:
  - an unknown type id gives `UnknownType`;
  - too many arguments gives `TooManyArguments`;
  - a missing default gives `NotEnoughArguments`, whose count is the position of the first type argument without a default;
  - a document without `_id` gives `MissingId`.
- Ports named only by the instance are kept, because `mod_inputs` starts as the instance's own dictionary (openag/utils.py:55). `MergePorts` and `InstanceSettingsSurvive` state that such ports come out unchanged.
- `WellFormed` says that `others` holds none of the fields the record names, so that a record stands for exactly one stored document. Resolution keeps it.
- The category tags are the strings `"actuators"` and `"sensors"`. `openag/categories.py` is not part of this model.

## Model

| member | source | states |
|---|---|---|
| Synthesis.PadArguments | openag/utils.py:42-52 | Filling succeeds exactly when every type argument from the first missing position on has a default. On success the list has the type's length, starts with the supplied arguments and continues with the type's defaults. On failure the reported count is the position of the first type argument without a default. |
| Synthesis.FillArguments | openag/utils.py:33-53 | Succeeds exactly when there are at most as many supplied arguments as declared ones and every missing position has a default. More supplied than declared arguments fails with both counts. Otherwise failure reports the first position with no default, and success is the padded list. |
| Synthesis.MergePort | openag/utils.py:57-64 | The merged descriptor has every key of the type's and of the instance's descriptor, plus `variable` and `categories`. Instance values win. Type values are kept where the instance is silent. `variable` becomes the port name and `categories` becomes `[tag]` only when neither descriptor sets them. |
| Synthesis.TypePorts | openag/utils.py:56-65 | The result has exactly the type's port names. Each port is the type's descriptor merged with the instance's descriptor of that name, an absent one counting as empty. |
| Synthesis.MergePorts | openag/utils.py:55-79 | The resolved ports are exactly the type's ports plus the instance's. Each type port is the type's descriptor merged with the instance's, as `MergePort` specifies. A port only the instance names is kept unchanged, so a module without ports gets exactly the type's port names. |
| Synthesis.Resolve | openag/utils.py:22-79 | An unknown type id fails. Otherwise resolution succeeds exactly when the arguments can be filled. A failure is the argument error. On success `header_file` and `class_name` are the type's, and `repository` and `dependencies` are the type's when it defines them and the instance's otherwise. The other fields are unchanged, the arguments are padded with defaults, and inputs and outputs are merged with the actuator and sensor tags. The result is well-formed exactly when the module was. |
| Synthesis.ResolveEach | openag/utils.py:21-81 | Visits every entry of a map in some order and stops at the first failure. It succeeds exactly when every entry resolves. The result then has the same keys, each holding that entry's resolution. A failure carries the error of some entry that fails. |
| Synthesis.Synthesize | openag/utils.py:21-81 | Succeeds exactly when every module resolves. The result then has exactly the modules' ids, each mapped to that module's resolution. A failure carries the error of a module that fails to resolve. |
| Synthesis.PortMergedUnique | openag/utils.py:57-64 | At most one descriptor meets the merge specification. The overlay is fully determined by the type's descriptor, the instance's descriptor, the port name and the tag. |
| Synthesis.MergePortIdempotent | openag/utils.py:57-64 | Merging a port's merged descriptor with the type's once more gives the same descriptor. |
| Synthesis.MergePortsIdempotent | openag/utils.py:55-66 | Merging already merged ports with the type's ports once more changes nothing. |
| Synthesis.ResolveIdempotent | openag/utils.py:26-79 | A resolved module resolves to itself against the same types: synthesis is a fixed point on its own output. |
| Synthesis.InstanceSettingsSurvive | openag/utils.py:55-79 | After synthesis every instance input and output is still present, and every field the instance set on it still has the instance's value. |
| Synthesis.TypePortsComplete | openag/utils.py:56-79 | After synthesis every input and output the type defines is present with `variable` and `categories` set. Type fields that the instance leaves alone keep the type's values. |
| Synthesis.MissingDefaultScenario | openag/utils.py:42-52 | Type arguments `[{default: 1}, {}]` and no supplied arguments give "not enough arguments" with count 1 of 2. |
| Synthesis.PaddedScenario | openag/utils.py:42-53 | Type arguments `[{default: 1}, {default: 2}]` and supplied `[9]` give `[9, 2]`. |
| Indexing.IndexBy | openag/utils.py:96 | The dictionary's keys are exactly the keys of the elements. Each key holds the last element that has it. |
| Indexing.FirstWithoutId | openag/utils.py:86 | Gives the position of the first document without `_id`, or the length of the list when every document has one. |
| Indexing.IndexById | openag/utils.py:83-86 | Succeeds exactly when every document has an `_id`. Its keys are then exactly the documents' ids, and each id holds the last document with that id. Otherwise the call fails at the first document without one. |
| Indexing.DedupeBy | openag/utils.py:88-97 | Every kept element is the last element with its key. Every element that is last for its key is kept. |
| Indexing.DedupeByCount | openag/utils.py:96-97 | The de-duplicated collection has exactly one element per distinct key. |
| Indexing.ExampleIndex | tests/test_utils.py:5-18 | On the test documents, "foo" is filed under the second document and "bar" under the third. |
| Indexing.IndexByIdExample | tests/test_utils.py:23-28 | Indexing the test documents gives two entries, and "foo" has type "b". |
| Indexing.DedupeByExample | tests/test_utils.py:30-32 | De-duplicating the test documents by `_id` keeps two. |
| DirNames.Split | openag/utils.py:104 | The tail is the slash-free text after the last slash. The head is the text before the tail: with its trailing slashes removed, or kept as it is when it is only slashes. It is never longer than the text before the tail. |
| DirNames.SplitExt | openag/utils.py:110 | Root and extension concatenate back to the path. There is a non-empty extension exactly when the path has one. The extension starts at the last dot of the final component, provided some non-dot character precedes it in that component. |
| DirNames.ExtensionIsLastDot | openag/utils.py:110 | An extension starts at the last dot of the path, after the last slash, and a non-dot character lies between them. |
| DirNames.NamingComponent | openag/utils.py:104-108 | The component chosen to name the clone holds no slash. Which component it is, is stated for each shape of path by `LastNamingComponent`, `ParentNamingComponent` and `NoNamingComponent`. |
| DirNames.DirNameFromPath | openag/utils.py:104-111 | The directory name is a single path component: it contains no slash. |
| DirNames.NoParentName | openag/utils.py:104-111 | A path of slashes only, followed by nothing or by a dot-name, gives the empty name. Examples are `/.git` and the empty path. |
| DirNames.LastNamingComponent | openag/utils.py:104-108 | A final component that is non-empty and does not start with a dot is the component the clone is named after. |
| DirNames.ParentNamingComponent | openag/utils.py:104-108 | When the final component is empty or starts with a dot, the clone is named after the component before the trailing slashes. |
| DirNames.NoNamingComponent | openag/utils.py:104-108 | A path of slashes only, followed by nothing or by a dot-name, leaves the empty component. |
| DirNames.LastComponentName | openag/utils.py:104-111 | A path whose last component is non-empty and does not start with a dot gives that component without its extension. |
| DirNames.ParentComponentName | openag/utils.py:105-111 | A path ending in slashes followed by nothing or by a dot-name such as `.git` gives the component before the slashes, without its extension. |
| DirNames.StemDropsExtension | openag/utils.py:110-111 | A name with a non-dot character, followed by a dot and a suffix with no dot, keeps only the name. |
| DirNames.StemWithoutDot | openag/utils.py:110-111 | A component without dots is its own directory name. |
| DirNames.RepositoryPathExample | tests/test_utils.py:35-37 | The path `/OpenAgInitiative/openag_am2315.git` gives `openag_am2315`. |
| DirNames.DotGitPathExample | tests/test_utils.py:39-41 | The path `/openag_am2315/.git` gives `openag_am2315`. |
| DirNames.TrailingSlashPathExample | tests/test_utils.py:43-45 | The path `/bar/` gives `bar`. |

## Left out

- Synthesis.Synthesize: on failure it reports the error of some failing module. The code reports the first one in the dictionary's iteration order, which is not modelled.
- Synthesis.ResolveEach: like `Synthesize`, it reports the error of some failing entry, not the first one in dictionary order.
- Indexing.DedupeBy: returns a set. The code returns the dictionary's values in dictionary order, and that order is not modelled.
- The loaders `load_firmware_module_type_file`, `load_firmware_types_from_lib`, `load_firmware_types_from_db` and `load_firmware_from_db` (openag/utils.py:113-159) are left out. They are file, JSON, CouchDB and console I/O. Their output is the already-parsed input maps.
- `urlparse` (openag/utils.py:103) is a library call. The model starts from the URL's path.
- The default key `hash` of `dedupe_by` (openag/utils.py:94-95) is left out. Callers pass the key function.
- The code copies modules shallowly, so it updates the instance's nested `inputs` and `outputs` dictionaries in place (openag/utils.py:23, 65, 78). That mutation and aliasing are not modelled.
- Error message wording is not modelled. Errors carry only the module id and the counts.
- A type document without `header_file` or `class_name`, or a module without `type`, raises `KeyError` in the code. The record types rule these documents out.
- A field of the wrong JSON shape, such as non-list `arguments`, is also ruled out by the record types. The code relies on the `FirmwareModule` and `FirmwareModuleType` schemas for shape; `openag/models.py` is not part of this model.
- DirNames.NamingComponent: its own contract says only that the component holds no slash. The lemmas `LastNamingComponent`, `ParentNamingComponent` and `NoNamingComponent` say which component it is for each shape of path.
- DirNames.DirNameFromPath: its own contract says only that the name holds no slash. The lemmas `LastComponentName`, `ParentComponentName` and `NoParentName` give the name for each shape of path.
- Indexing.IndexById: accepts any value as an `_id`. Python raises `TypeError` for an unhashable `_id` such as a list or a dictionary. Keys are also compared as Dafny values, so `true` and `1` are two keys. Python treats them as one key, because `True == 1` and both hash alike; the same holds for `Indexing.DedupeBy` when keys are JSON values.
- JSON numbers are integers. Floating point is not modelled, and the synthesizer only copies numbers.
- `os.path.split` and `os.path.splitext` are library functions. They are modelled after their POSIX definitions, with `/` as the only separator.
- The `is` comparisons at openag/utils.py:108 are modelled as equality.
- `generate_config` in openag/cli/db/db_config.py is left out. It builds a fixed CouchDB configuration dictionary and has no algorithmic behaviour.
