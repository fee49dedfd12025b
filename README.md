# ansible_vault_indexer core, in Dafny

`extract_keys.py` walks a tree of Ansible vault files. For each vault file it writes
a `__map.yml` reference file next to it. That file holds the vault's structure with
every value hidden, plus one entry per top-level key that maps the logical name to a
`{{ vault_... }}` placeholder. It can then rewrite the vault text so that its
top-level keys carry the `vault_` prefix: a line is changed exactly when it starts
with a word character (`\w`) and not already with `vault_`, so indented keys,
comments, list items and quoted keys are left as they are. This project models the
four pieces of logic in that script and proves their properties:

- `extractor.dfy` (module `Extractor`): `get_structure`. `Structure` is the
  specification function. `GetStructure` is the source's recursive procedure, with
  its accumulating loops. A scalar stored as a dict value becomes `"secret"`. A
  scalar reached directly (a list element, or the root) falls through both type
  tests and becomes `None`.
- `mapping.dfy` (module `Mapping`): `create_mapping_file`. It covers the
  `(lhs, rhs)` entry for each top-level key, the header, the commented dump, the
  separator and the order of the writes.
- `filenames.dfy` (module `FileNames`): the candidate filter of `get_file_list`,
  `os.path.join`, the mapping-file name `file_name[:-4] + "__map.yml"` and the base
  name `split("/")[-1]`.
- `prefixer.dfy` (module `Prefixer`): `add_vault_prefixes`. The regex substitution
  `^(?!vault_)(\w+)` → `vault_\1` is modelled operationally (lookahead, then a greedy
  word run) and proved equal to a simple per-line rule. The text is split on `"\n"`,
  rewritten line by line and joined again.
- `yaml.dfy` (module `Yaml`): the decoded document as given by `yaml.safe_load`.
  A dict is an insertion-ordered sequence of pairs. `Put` is `dict.update` with one
  key.
- `naming.dfy` (module `Naming`): the `vault_` convention shared by the prefixer
  and the mapping entries.
- `text.dfy` (module `Text`): Python's `startswith`, `endswith`, `split` and `join`,
  with the split/join round-trip lemmas.

Four behaviours of the code that are easy to miss, and that the model keeps:

- `get_structure` on a scalar at the root of a document returns `None` (both type
  tests fail and the function falls off its end); it raises no error.
- A scalar inside a list becomes `None`, not the `"secret"` sentinel: only dict
  values are replaced by `"secret"` (extract_keys.py:91-92).
- On a structure that is not a dict, `create_mapping_file` leaves a partly written
  mapping file: the header, the comment block and the separator are written before
  `.items()` raises. See `MappingFile.complete`.
- There is no per-file error handling: an exception on one file ends the run.

## Model

| member | source | states |
|---|---|---|
| Yaml.Put | extract_keys.py:92-94 | `dict.update({key: v})` with a key not yet present appends `(key, v)` as the last entry |
| Extractor.Structure | extract_keys.py:79-95 | a scalar gives `None`, a list a list of the same length, a dict a dict with the same keys in the same order, in which exactly the scalar values are `"secret"` |
| Extractor.GetStructure | extract_keys.py:79-95 | on a well-formed document (distinct keys), the loops and recursive calls compute exactly `Structure(data)`, and the result is again well-formed |
| Extractor.StructureIsShape | extract_keys.py:83-95 | every result is a shape tree: a scalar dict value is exactly `"secret"`, a scalar reached directly (list element or root) is `None`, and dict and list values are recursed into |
| Extractor.StructureHidesValues | extract_keys.py:79-95 | no original scalar value survives: the only scalars left anywhere in the result are `"secret"` and `None` |
| Extractor.StructurePreservesSkeleton | extract_keys.py:83-94 | with all scalars erased, input and result are equal: same keys in the same insertion order, same list lengths, same nesting |
| Extractor.StructureWellFormed | extract_keys.py:88-94 | dict keys are copied unchanged, so distinct keys stay distinct at every level |
| Extractor.StructureFixedIff | extract_keys.py:79-95 | the extractor leaves a tree unchanged if and only if the tree is a shape tree |
| Extractor.StructureIdempotent | extract_keys.py:79-95 | extracting the structure of a structure gives the same structure |
| Extractor.ScalarListGivesNones | extract_keys.py:83-87 | a list of scalars becomes a list of `None` of the same length, not a list of `"secret"` |
| Naming.Prefixed | extract_keys.py:124-127 | the converted name always starts with `vault_`; a prefixed key is kept, otherwise `vault_` is put in front |
| Naming.Unprefixed | extract_keys.py:127 | the logical name with `vault_` in front is the converted name |
| Naming.PrefixedIdempotent | extract_keys.py:147 | converting an already converted key changes nothing |
| Naming.UnprefixedStable | extract_keys.py:123-127 | a key and its converted form have the same logical name |
| Mapping.MappingPair | extract_keys.py:123-127 | the left-hand name is the key without `vault_`; the right-hand side is `{{ vault_<lhs> }}`, the placeholder of the key's prefixed name |
| Mapping.MappingPairStable | extract_keys.py:123-127 | an unprefixed key `k` and `vault_` + `k` produce the same mapping entry |
| Mapping.MappingPairsStable | extract_keys.py:123-127 | the entries of a dict are unchanged when any of its top-level keys are replaced by their prefixed forms, in the same order and whatever the values become |
| Mapping.MappingStableAcrossPrefixing | extract_keys.py:123-127 | for two dicts with distinct keys where the second is the first after prefixing (same number of keys in the same order, each kept or prefixed, values free), extracting and mapping gives the same entries |
| Mapping.PrefixingCanCollide | extract_keys.py:123-127 | `{db: a, vault_db: b}` has distinct keys, but its prefixed form has the key `vault_db` twice |
| Mapping.MappingNamesDistinctIff | extract_keys.py:123-127 | with distinct keys, the left-hand names are distinct if and only if no key `k` occurs next to `vault_` + `k` |
| Mapping.Header | extract_keys.py:116 | for a path without a newline: the title line `### data structure in <base name>:`, a line `#`, then a fresh line |
| Mapping.CommentBlock | extract_keys.py:118-119 | one line `"# " + l` for each line `l` of the dump except the last piece dropped by `[:-1]`, and a final newline |
| Mapping.Separator | extract_keys.py:122 | an empty line, then the line `### mapping to vaulted_variables:`, then a fresh line |
| Mapping.EntryText | extract_keys.py:123-127 | empty for no keys, exactly the key's dumped entry for one key; otherwise it opens with the first key's dumped entry and closes with the last one's |
| Mapping.EntryTextAppend | extract_keys.py:123-127 | writing the entries of two runs of keys one after the other is writing the entries of the joined run |
| Mapping.WriteCommentBlock | extract_keys.py:118-119 | the write loop over the dump's lines produces exactly the comment block, whose lines are the commented dump lines |
| Mapping.WriteEntries | extract_keys.py:123-127 | the write loop over the top-level keys writes the dumps of the entries in key order |
| Mapping.MappingDocument | extract_keys.py:108-127 | the file goes to the mapping path, which is never a candidate; it is complete iff the structure is a dict; it starts with the header, the comment block and the separator, and an incomplete file is exactly those three |
| Mapping.CreateMappingFile | extract_keys.py:108-127 | the sequence of writes yields `MappingDocument`; a complete file is the header, the comment block, the separator and the entries |
| Mapping.ExampleMapping | extract_keys.py:79-127 | `{db: {user, pass}, region}` gives `{db: {user: secret, pass: secret}, region: secret}`, and entries only for `db` and `region` |
| Mapping.ExamplePairs | extract_keys.py:123-127 | `vault_db_pass` maps `db_pass` to `{{ vault_db_pass }}`; `api_token` maps `api_token` to `{{ vault_api_token }}` |
| FileNames.DropLastFour | extract_keys.py:113 | Python's `s[:-4]`: the string minus its last four characters, or empty for shorter strings |
| FileNames.IsCandidate | extract_keys.py:67 | the filter; a candidate is its `[:-4]` stem followed by `.yml` |
| FileNames.MappingFileName | extract_keys.py:113 | the mapping path always ends in `__map.yml` and so never passes the candidate filter |
| FileNames.BaseName | extract_keys.py:116 | `split("/")[-1]` contains no `/` and is a suffix of the path: the whole path when it has no `/`, otherwise the text right after the last `/` |
| FileNames.PathJoin | extract_keys.py:67 | `os.path.join`: an absolute name is returned as is; a relative one follows the directory; the base name of the joined path of a plain file name is that file name |
| FileNames.Candidates | extract_keys.py:67 | the names kept by the filter are exactly the listed names ending in `.yml` and not in `__map.yml`, no more than the names |
| FileNames.CandidatesAppend | extract_keys.py:67 | the filter runs over the names in order: filtering two lists one after the other gives the kept names of the first followed by those of the second |
| FileNames.CandidatePaths | extract_keys.py:67 | every path is the join of a listed candidate name, the join of every candidate name is listed (sound and complete as sets), no more paths than names |
| FileNames.CandidatePathsAppend | extract_keys.py:67 | the paths of two name lists one after the other are the paths of the first list followed by those of the second |
| FileNames.CandidatePathsOne | extract_keys.py:67 | one name gives exactly its joined path when it passes the filter and no path otherwise, so with `CandidatePathsAppend` each candidate gives one path, in list order |
| FileNames.MappingFileNeverCandidate | extract_keys.py:67 | the base name of any mapping file, as a later directory walk lists it, is rejected by the filter |
| FileNames.MappingFileInSameDirectory | extract_keys.py:113 | the mapping file of `os.path.join(dir, name)` is `os.path.join(dir, mapping name of name)` |
| FileNames.MappingFileNameInjective | extract_keys.py:113 | two different `.yml` files never share a mapping file |
| FileNames.SecretsExample | extract_keys.py:67 | `secrets.yml` is a candidate whose mapping file `secrets__map.yml` is not |
| Text.Split | extract_keys.py:152 | `str.split` never returns an empty list, and no piece contains the separator |
| Text.JoinSplit | extract_keys.py:152-156 | joining the pieces of a split gives the text back |
| Text.SplitJoin | extract_keys.py:152-156 | `"\n".join` (`Join`) of lines without a newline, split again on `"\n"`, gives the lines back |
| Prefixer.WordRun | extract_keys.py:147 | the greedy `\w+` takes the longest leading run of word characters |
| Prefixer.MatchLength | extract_keys.py:147 | the pattern matches exactly the candidate lines (a word character first, no `vault_` prefix), and then takes the whole leading word |
| Prefixer.SubstituteLine | extract_keys.py:153 | the substitution gives `vault_` + line on a candidate line and the line itself on every other line |
| Prefixer.SubstituteLineIdempotent | extract_keys.py:153 | substituting a substituted line changes nothing |
| Prefixer.SubstituteKeyLine | extract_keys.py:147-153 | on a line `key + rest` where `key` is a whole word, the key is renamed to its converted name and `rest` is kept |
| Prefixer.ExampleLines | extract_keys.py:147-153 | `db: x` becomes `vault_db: x`; an indented key and a comment are unchanged |
| Prefixer.RewriteText | extract_keys.py:151-156 | the lines of the rewritten text are the substituted input lines, one for one |
| Prefixer.RewriteTwoLines | extract_keys.py:151-156 | a text of two lines is rewritten line by line |
| Prefixer.KeyCollision | extract_keys.py:147-156 | a text holding a top-level `key` line and a `vault_` + `key` line (each key a whole word) becomes a text with two `vault_` + `key` lines |
| Prefixer.RewriteTextIdempotent | extract_keys.py:151-156 | running the prefixer on its own output changes nothing |
| Prefixer.RewriteTextFixedIff | extract_keys.py:151-156 | the prefixer leaves a text unchanged if and only if none of its lines is a candidate |
| Prefixer.AddVaultPrefixes | extract_keys.py:149-156 | the loop over the split lines gives `RewriteText`; it keeps the line count; each line is prefixed exactly when it is a candidate; the output is a fixed point |

## Left out

- Directory traversal with `os.walk` in `get_file_list`: filesystem I/O. `CandidatePaths` models the comprehension for one visited directory.
- Decryption and re-encryption (`VaultLib`, `VaultSecret`, `to_bytes`, `to_text`, `open_vault`) and the `vault_id` taken from `split("/")[-2]`: a foreign crypto library. `AddVaultPrefixes` takes the decrypted text and returns the text that would be encrypted.
- `yaml.safe_load`, `yaml.dump` and the `!unsafe` constructor: an external parser and serialiser. The dump of the structure is an input string. The dump of one `{lhs: rhs}` entry is a function parameter. Floats, dates and `!unsafe` strings are the opaque `Other` scalar.
- `get_decrypted_file_contents` and its rule that a text of at most one character reads as `{}`: glue between decryption and parsing.
- `get_command_line_arguments`, `get_vault_password` (`getpass`), `get_python_version`, the `print` calls and the loop in `main`: CLI, prompting and orchestration.
- Opening and writing files: the mapping file is returned as a `MappingFile` value. It holds the path, the text written and whether the writes ran to the end.
- Prefixer.IsWordChar: ASCII `[A-Za-z0-9_]` only. Python 3's `\w` also matches non-ASCII letters and digits, so lines starting with those are prefixed by the source but not by the model.
- Yaml.Value: a finite tree. `yaml.safe_load` builds self-referential lists and dicts from anchors and aliases (`&a [*a]`, `&a {x: *a}`), on which `get_structure` recurses until Python raises `RecursionError` and the run ends; such documents are not modelled. The `Other` scalar also stands for the values that the type tests at extract_keys.py:83, :88 and :91 treat as scalars although they are not: `!!set` (a Python set), `!!binary` (bytes) and the tuples that `!!omap` and `!!pairs` produce.
- Yaml.Value: dict keys are strings. YAML keys of other types (integers, booleans) are not modelled, nor is the `AttributeError` that `key.startswith` would raise on them.
- Mapping.MappingStableAcrossPrefixing: requires the renamed keys to be distinct. A vault holding both `k` and `vault_k` at the top level breaks this: the prefixer writes `vault_k` twice (`Prefixer.KeyCollision`), `yaml.safe_load` keeps only the last of the two values, and the next mapping file has one entry fewer (`Mapping.PrefixingCanCollide`).
- Mapping.Header: states the lines only for a path without a newline character; the text is still built for every path.
- Extractor.GetStructure: requires distinct keys at every level, which every Python dict has. A sequence of pairs with a repeated key is not a dict.

