# pykern core in Dafny

This project models three pieces of pykern and proves properties about them.

- **`OrderedMapping` and `mapping_merge`.** An ordered key/value record with
  item and attribute access. Keys are unique and iterate in insertion order.
  Assigning to a present key overwrites its value in place. Assigning to an
  absent key appends it. Deleting closes the gap. Equality needs the same
  class and the same entries in the same order. `repr` is
  `TypeName(k=v, ...)`. `mapping_merge` assigns each source entry into the
  target. The implementation file `pykern/pkcollections.py` is not part of
  this model. The behaviour is taken from what `tests/pkcollections_test.py`
  asserts.
- **The manifest rules of `pykern/pkcli/rsmanifest.py`.**
  - `add_code` records a code in the user manifest. The path is the venv
    key, then the lower-cased code name, then a record. It starts from a
    default manifest when the file is missing or does not parse.
  - `read_all` requires the user and container manifests to have equal
    `version`s. It then overlays the user's top-level keys on the
    container's.
- **The pure helpers of `pykern/pksetup.py`.**
  - `_fullsplit` and `os.path.split` (POSIX).
  - Package discovery from a directory walk.
  - Entry points derived from `*_console.py` / `*_gui.py` file names.
  - The sorted package-data list.
  - The `--boxed` flag.
  - How `setup` layers three dictionaries: its built-in defaults, the
    `_state` values and the caller's keywords.

## Modules

| file | module | contents |
|---|---|---|
| results.dfy | `Results` | exception kinds, `Option`, `Result` |
| strings.dfy | `Strings` | `str.join`, ASCII `str.lower`, code-point ordering, `sorted` and its uniqueness |
| ordered_mapping.dfy | `OrderedMappings` | the mapping as a class name plus a sequence of entries; get/set/delete/merge/init/eq/repr |
| ordered_mapping_laws.dfy | `OrderedMappingLaws` | the laws the tests check, for all inputs |
| manifest.dfy | `Manifest` | JSON values, `add_code`, `read_all` |
| manifest_laws.dfy | `ManifestLaws` | defaults, frame, replacement and merge laws |
| paths.dfy | `Paths` | `posixpath.split`, `_fullsplit` and its round trip with `'/'.join` |
| setup.dfy | `Setup` | `_packages`, `_entry_points`, `_package_data`, `_boxed_if_os_supports`, `_state`, `setup` |

Failures are values. Every exception the source raises on a path it handles
is a `Result` error: `KeyError`, `AttributeError`, `AssertionError`,
`TypeError`, and a load failure passed through.

I/O becomes parameters:
- a loaded manifest is a `Result<Json>` input;
- the `installed` timestamp is a string;
- the directory walk and the directory listing are sequences;
- the git file lists are sequences;
- the computed version is a string;
- the stored state file is an `Option` map;
- `hasattr(os, 'fork')` is a boolean.

Where the sources are silent, these choices were made:
- **Construction** (`OrderedMappings.Init`):
  - more than one positional argument fails with `AssertionError` (test
    lines 75-76);
  - a single non-empty non-mapping iterable, or a non-iterable, fails with
    `TypeError` (lines 78-79);
  - an empty non-mapping iterable gives an empty mapping (line 77 says it
    cannot be tested);
  - keyword arguments are assigned after the positional mapping, in the
    order given.
- **Overwrites.** Assigning to a present key keeps the key in its place.
  `test_mapping_merge` (lines 105-111) merges one present and one new key
  and expects the old key order with only the new key appended.
  `test_setitem` and `test_setattr` (lines 133-161) check only the value
  after an overwrite. Only deleting a key and assigning it again moves it
  to the end (lines 141-151).

## Model

| member | source | states |
|---|---|---|
| OrderedMappings.Keys | tests/pkcollections_test.py:168-169 | Iteration `[k for k in n]`: the entries' keys in entry order; through InsertionOrder, Set and Delete, keys iterate in assignment order, an overwrite keeps the order, a new key is appended and a deletion removes just that key |
| OrderedMappings.Get | tests/pkcollections_test.py:62-68 | Succeeds exactly when the key is present, returning the value stored with it; a missing key gives KeyError (item access) or AttributeError (attribute access), never a default |
| OrderedMappings.Set | tests/pkcollections_test.py:154-161 | Afterwards the key holds the new value; a present key keeps the key order unchanged, an absent key is appended at the end; key uniqueness and the class are preserved |
| OrderedMappings.SetFrame | tests/pkcollections_test.py:133-140 | Assigning one key leaves every other key's value unchanged |
| OrderedMappings.Delete | tests/pkcollections_test.py:20-36 | Succeeds exactly when the key is present, with the access idiom's error otherwise; the key is gone and the remaining keys keep their relative order (the key sequence with that key removed) |
| OrderedMappings.DeleteFrame | tests/pkcollections_test.py:141-147 | Deleting one key leaves every other key's value unchanged |
| OrderedMappings.Merge | tests/pkcollections_test.py:97-104 | Merging an empty source leaves the target unchanged; the class and key uniqueness are preserved |
| OrderedMappings.Init | tests/pkcollections_test.py:70-79 | Two positional arguments fail with AssertionError; a non-empty non-mapping list or a scalar fails with TypeError; no other error occurs; success yields a duplicate-free mapping of the requested class |
| OrderedMappingLaws.InsertionOrder | tests/pkcollections_test.py:82-85 | Assigning distinct keys one after another into an empty mapping gives exactly those entries, and iteration yields the keys in assignment order |
| OrderedMappingLaws.SetThenGet | tests/pkcollections_test.py:133-140 | Reading a key back after assigning it gives the assigned value; other keys read as before; present keys keep the order, absent keys are appended |
| OrderedMappingLaws.DeleteThenReinsert | tests/pkcollections_test.py:141-151 | After deletion the key is invisible and reading it fails; assigning it again puts it at the end after the other keys in their old relative order |
| OrderedMappingLaws.MissingKeyFails | tests/pkcollections_test.py:20-36 | Getting or deleting a missing key fails with KeyError through subscripts and AttributeError through attributes |
| OrderedMappings.Len | tests/pkcollections_test.py:88-94 | len(n): the number of entries; through LenCountsKeys, the number of distinct keys |
| OrderedMappingLaws.LenCountsKeys | tests/pkcollections_test.py:88-94 | len is the number of distinct keys |
| OrderedMappingLaws.InitFromKeywords | tests/pkcollections_test.py:92-94 | Keyword construction with distinct names gives the entries in the order given, so len is the number of keywords |
| OrderedMappings.Equal | tests/pkcollections_test.py:39-53 | n == other; through EqualIffSame, true exactly when the class and the entries in order agree, and never against None |
| OrderedMappingLaws.EqualIffSame | tests/pkcollections_test.py:39-53 | Equality holds exactly when class, keys, values and order all agree; never against None |
| OrderedMappingLaws.ReinsertFirstKeyIsUnequal | tests/pkcollections_test.py:54-59 | Deleting the first of two or more keys and assigning it back with the same value gives a mapping unequal to the original |
| OrderedMappingLaws.CopyConstruction | tests/pkcollections_test.py:48-51 | Constructing from a mapping copies its entries in order, and the copy of an OrderedMapping equals the original |
| OrderedMappingLaws.MergeKeys | tests/pkcollections_test.py:105-111 | After a merge the target's keys stay in place, followed by the source's new keys in source order |
| OrderedMappingLaws.MergeLookup | tests/pkcollections_test.py:105-111 | After a merge a key holds the source's value if the source has it and the target's value otherwise |
| OrderedMappingLaws.MergeExistingAndNew | tests/pkcollections_test.py:105-111 | Merging one existing and one new key keeps the existing key's position with the new value and appends the new key |
| OrderedMappings.Repr | tests/pkcollections_test.py:115-130 | repr(n); through ReprShape, ReprAppend and ReprInsertionOrder: TypeName() when empty, TypeName(k=v) for one entry, the k=v pairs in insertion order joined by ", " |
| OrderedMappingLaws.ReprShape | tests/pkcollections_test.py:117-123 | The empty mapping renders as TypeName(), a one-entry mapping as TypeName(k=v) with no comma; every rendering starts with TypeName( and ends with ) |
| OrderedMappingLaws.ReprAppend | tests/pkcollections_test.py:124-130 | Appending a new key to a non-empty mapping inserts ", k=v" before the closing parenthesis |
| OrderedMappingLaws.ReprInsertionOrder | tests/pkcollections_test.py:124-130 | A mapping built from distinct keys renders its k=v pairs joined by ", " in insertion order |
| Manifest.Base | pykern/pkcli/rsmanifest.py:40-48 | A loaded manifest is used as is; a missing file or a ValueError gives the default manifest; every other failure propagates |
| Manifest.VenvKey | pykern/pkcli/rsmanifest.py:49-50 | No virtualenv and the empty name both select the key "" |
| ManifestLaws.NoVenvIsEmptyName | pykern/pkcli/rsmanifest.py:49-50 | No virtualenv selects the key "", so adding a code with no virtualenv gives the same manifest as adding it under the empty virtualenv name |
| Manifest.Install | pykern/pkcli/rsmanifest.py:51-59 | Fails with AttributeError unless the manifest has a codes object, and with TypeError when the venv entry is truthy but not an object; otherwise the record is found under the venv and code keys |
| Manifest.AddCode | pykern/pkcli/rsmanifest.py:23-60 | Load failures other than missing or invalid propagate; on success the record with the original-case name, source_d, uri, version and timestamp is found under the venv key and the lower-cased name |
| Manifest.ReadAll | pykern/pkcli/rsmanifest.py:63-85 | Succeeds exactly when both manifests load, both have a version and the versions are equal; load errors propagate, a missing version in either manifest gives AttributeError; the result's top-level keys are the union of both |
| ManifestLaws.AddCodeToDefault | pykern/pkcli/rsmanifest.py:40-48 | With no usable user file the written manifest is version 20170217.180000 with codes holding the default "" venv and the new record |
| ManifestLaws.AddCodePropagates | pykern/pkcli/rsmanifest.py:42-44 | Any other load failure is raised unchanged |
| ManifestLaws.InstallFrame | pykern/pkcli/rsmanifest.py:51-59 | Recording one code changes no other top-level key, no other venv and no other code of the same venv; the codes object keeps its venv keys plus the one written, and every other venv entry is unchanged |
| ManifestLaws.AddCodeFrame | pykern/pkcli/rsmanifest.py:51-59 | add_code changes only the one record it writes: the other top-level keys, the other venvs and the other codes of the venv are those of the loaded (or default) manifest |
| ManifestLaws.InstallTwice | pykern/pkcli/rsmanifest.py:52-59 | Recording under the same venv and code twice keeps only the second record |
| ManifestLaws.ReAddReplaces | pykern/pkcli/rsmanifest.py:52-58 | Adding a code again under a name equal up to case gives what adding only the second would give |
| ManifestLaws.ReadAllUserWins | pykern/pkcli/rsmanifest.py:80-82 | Each top-level key of the merge comes from the user manifest when it has it, else from the container |
| ManifestLaws.ReadAllShallow | pykern/pkcli/rsmanifest.py:82 | When both have codes, the merged codes is the user's whole, not a merge of the two |
| ManifestLaws.ReadAllVersionMismatch | pykern/pkcli/rsmanifest.py:78-79 | Unequal versions fail with AssertionError |
| ManifestLaws.ReadAllSelf | pykern/pkcli/rsmanifest.py:78-85 | Merging a manifest with itself gives it back |
| Paths.Split | pykern/pksetup.py:290 | posixpath.split; through SplitShape, the tail is the last pathname component (the whole path when it has no separator, else everything after the last separator), the head is a prefix ending before it with only separators in between, and the head is empty exactly when the path has no separator |
| Paths.SplitShape | pykern/pksetup.py:290 | The tail is a separator-free suffix: the whole path when it has no separator, otherwise preceded by a separator; the head is a prefix, only separators lie between head and tail, and the head is empty exactly when the path has no separator |
| Paths.FullSplit | pykern/pksetup.py:282-295 | _fullsplit; through FullSplitSuffix it only adds separator-free parts in front of result, and through FullSplitJoin and FullSplitRooted it inverts "/".join of components |
| Paths.FullSplitSuffix | pykern/pksetup.py:282-295 | The accumulated result is a suffix of the answer, and every part added in front of it contains no separator |
| Paths.FullSplitJoin | pykern/pksetup.py:282-295 | _fullsplit of components joined by "/" returns those components in order before the accumulated result (the opposite of os.path.join) |
| Paths.FullSplitRooted | pykern/pksetup.py:290-294 | For an absolute path the root head ends the recursion, leaving the same components |
| Setup.DottedName | pykern/pksetup.py:300 | '.'.join(_fullsplit(dirpath)); through DottedNameOfPath, the components of the path joined by "." |
| Setup.DottedNameOfPath | pykern/pksetup.py:300 | A walked directory path made of components gets those components joined by "." as its package name |
| Setup.Packages | pykern/pksetup.py:297-301 | A name is a package exactly when some walked directory holds __init__.py and has that dotted name; there are no more names than walked directories |
| Setup.PackagesCons | pykern/pksetup.py:298-300 | The first walked directory contributes exactly its own name (or nothing, without __init__.py) before the names of the rest of the walk: one name per package directory, in walk order |
| Setup.PackagesOf | pykern/pksetup.py:297-301 | The loop over the walk builds the package list in walk order, holding exactly the dotted names of the walked directories with __init__.py |
| Setup.GreedyMatch | pykern/pksetup.py:245-246 | The group ends at the largest position where a letter, one or more word characters and then the tag (any case) match |
| Setup.EntryFor | pykern/pksetup.py:244-250 | An entry line is produced only for names the glob accepts |
| Setup.EntryForSpec | pykern/pksetup.py:244-250 | A name gets an entry exactly when the glob accepts it and the regex matches; the entry is built from the largest match, as "group = pkg.match:main" |
| Setup.ScriptsFor | pykern/pksetup.py:243-250 | A line is among a kind's entries exactly when some listed file name produces it; there are no more lines than listed files |
| Setup.ScriptsForSnoc | pykern/pksetup.py:243-250 | One more listed file appends exactly its own entry line, or nothing, after the lines of the files before it: one line per matching file, in listing order |
| Setup.Groups | pykern/pksetup.py:240-251 | One group per kind that has entries, no other: console_scripts with the console entries first, gui_scripts with the gui entries last |
| Setup.GroupsLookup | pykern/pksetup.py:246-249 | Looking a kind up by its group name gives that kind's entries, or nothing when it has none; every group is non-empty and named console_scripts or gui_scripts |
| Setup.EntryPoints | pykern/pksetup.py:241-251 | The console_scripts and gui_scripts groups hold that kind's entries and exist only when non-empty; there are no other groups and neither appears twice; console comes first |
| Setup.ConventionalEntry | pykern/pksetup.py:244-250 | A file prefix_console.py or prefix_gui.py, whose prefix is a letter then word characters, gives "prefix = pkg.prefix_kind:main" |
| Setup.PackageData | pykern/pksetup.py:315-318 | The result is sorted and holds exactly the untracked and tracked files, with multiplicity |
| Setup.PackageDataOrderFree | pykern/pksetup.py:315-318 | Swapping the two git listings gives the same list, and a file appears exactly when one of the listings has it |
| Setup.BoxedIfOsSupports | pykern/pksetup.py:105-107 | --boxed is present exactly when fork is available, and nothing else is ever returned |
| Setup.StateCompute | pykern/pksetup.py:389-400 | The state always has the version; package_data is present exactly when some file was listed, and then holds the sorted list under the package name; include_package_data is set exactly when package_data is; no other key |
| Setup.State | pykern/pksetup.py:374-383 | A git checkout computes the state, otherwise the stored state is used; a missing state file is the only failure (AssertionError) |
| Setup.Defaults | pykern/pksetup.py:212-226 | The built-in dictionary; through DefaultName its name is the caller's, and through SetupPrecedence it is the lowest layer, below the state and the caller's keywords |
| Setup.SetupArgs | pykern/pksetup.py:202-228 | A missing name fails with KeyError, a name that is not str with AssertionError; success exactly when the name is a str and the state is available |
| Setup.SetupPrecedence | pykern/pksetup.py:211-228 | Caller keywords other than name override the state, which overrides the built-in defaults; name comes from the state if it sets one, else from the caller |
| Strings.Lower | pykern/pkcli/rsmanifest.py:52 | `name.lower()`: same length, each character lowered on its own; an upper-case ASCII letter becomes its lower-case letter and every other character is kept |
| Strings.Join | pykern/pksetup.py:300 | `sep.join(parts)`; through JoinAppend, one more part adds exactly one separator and the part at the end |
| Strings.JoinAppend | tests/pkcollections_test.py:124-128 | Joining one more part appends the separator and the part, which is how the ", "-joined repr and the "."-joined package names grow |
| Strings.Sort | pykern/pksetup.py:318 | sorted returns a sorted permutation of its input |
| Strings.SortedUnique | pykern/pksetup.py:318 | Two sorted arrangements of the same files are equal, so the sorted list is determined by the files alone |

## Left out

- `pykern/pkcli/sim.py`: it is subprocess calls, an HTTP API, netrc lookup and file writes.
- The command classes of `pksetup.py` (`PyTest` runs, `SDist`, `Tox`), `_git_ls_files`, `_sphinx_apidoc`, reading README and requirements, the YAML dump and `MANIFEST.in` writing, and the `setuptools.setup` call: foreign tools or I/O. Their results are inputs.
- `_version`: it depends on the clock and on git, and `pkg_resources.parse_version` normalises the string. The version is an input.
- JSON loading and dumping, `~` expansion, the `merge_file` dump in `read_all`, and `utcnow()`: I/O. The timestamp is a parameter. The manifest `add_code` would dump is its result.
- JSON object key order and pretty-printing: objects are maps. Numbers are integers only. Equality of versions is structural, so Python's `1 == 1.0` is not modelled.
- Manifest.AddCode: `name.lower()` is modelled on the ASCII alphabet only (`Strings.Lower`). Unicode case mapping is not modelled.
- Setup.GreedyMatch: `[a-z]` and `\w` are modelled on ASCII only, which is what they match on a Python 2 `str` (bytes). Under `re.IGNORECASE` on a Python 3 `str`, `[a-z]` also matches U+0130, U+0131, U+017F and U+212A, and `\w` matches every Unicode letter and digit (for example `é`).
- Setup.EntryPoints: the dictionary is a sequence of groups. Its order follows insertion, as in Python 3.7 and later. Python 2's dict order is not modelled. Both globs read one directory listing, and the listing order is glob's order.
- OrderedMappings.Init: the source object of `OrderedMapping(mapping)` is given as its entry sequence. Duck-typed mapping detection is reduced to three argument kinds.
- OrderedMappings.Equal: `other` is `None` or a mapping. Comparison with objects of unrelated types is not modelled.
- OrderedMappings.Merge: a source is an entry sequence in its iteration order. The iteration order of a plain dict source is not modelled; the tests fix it only for one new key.
- Attribute and item access share one get/set/delete. Only the error kind differs. Python's attribute hooks and reserved attribute names are not modelled.
- Test lines 112-114 merge into `n2` but assert on `n`, so they say nothing about `n2`. No property is taken from them.
- `_random_init`'s random choice of keys: the laws hold for any distinct keys.
- `str(...)` conversions in `_packages` and `setup`, and the `READTHEDOCS` branch of `_state`, have no effect on the modelled values.
