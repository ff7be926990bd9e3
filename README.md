# Nested-dict toolkit and peak-target assembly

This project models, in Dafny, the part of the sequencing-workflow library
that transforms in-memory pattern and target trees:

- `lib/utils.py`:
  - `flatten` turns a nested tree of dicts, lists and strings into a flat list of its leaves.
  - `map_nested_dicts` applies a function to every leaf of a nested dict.
  - `extract_nested` collapses the leaf dicts that hold a given key down to that key's value.
  - `updatecopy` is a key-scoped shallow copy-and-update, first-write-wins by default.
  - `update_recursive` is an in-place deep merge that returns the dict it changed.
  - `boolean_labels` builds labels such as `exp1_AND_exp2_NOT_exp3`.
  - `pattern_to_rst_file` gives the report file name of a file-name pattern.
- `lib/patterns_targets.py`:
  - `update_recursive`.
  - The peak-target steps of `ChIPSeqConfig.__init__`. For each peak caller in the order macs2, then spp:
    - the caller's slice of the peak patterns is cut out;
    - the slice is filled in;
    - the result is deep-merged into `targets_for_peaks`.

    After that, `targets` and `patterns` are built by shallow `dict.update` calls.

The files:

- `wrappers.dfy` defines `Option`. `None` stands for a Python exception where an operation can raise.
- `nested.dfy` defines the value model:
  - `Value` is a string, an integer, a boolean, a list or a dict.
  - A dict is an ordered association list, `Entries`, iterated in insertion order as Python does.
  - Item assignment (`Set`) keeps an existing key's position and appends a new key.
  - `dict.update` is `ShallowUpdate`.
  - `At(v, path)` is the lookup `v[p0][p1]...`.
- `utils.dfy` models `lib/utils.py`:
  - Pure functions become Dafny functions.
  - The loops of `updatecopy` and `boolean_labels` become methods, proved against specification functions.
  - The in-place `update_recursive` is the method `MutableDict.UpdateRecursive` on a class whose field is the dict's items. It is proved against the function `UpdatedRecursively`.
- `patterns_targets.dfy` models the peak-target steps:
  - The `_peak_patterns` loop is the method `PeakPatterns`.
  - The assembly is the constructor of the class `ChIPSeqConfig`, which allocates and mutates `MutableDict` objects.
  - Its result is specified by the functions `PeakSlice`, `Filled` and `PeakTargets`.
  - `helpers.fill_patterns` and `chipseq.peak_calling_dict` live in other libraries. They are the function parameters `fill` and `runs`.

Where the documentation and the code disagree, the model follows the code:

- The `boolean_labels` docstring says `idx` has the same size as `names`, but the code zips the two lists. The model truncates to the shorter one, as `zip` does (`BooleanLabelZipTruncates`).
- `update_recursive` is not side-effect free: it mutates its first argument and returns it. The model keeps that. `ChIPSeqConfig` discards the return value at `lib/patterns_targets.py:90` and relies on the mutation.
- The fill stage's error kinds and combination policies (unresolved placeholders, mismatched zip axes, missing axes) belong to `helpers.fill_patterns`, which is not part of this model. No code shown here raises them.

## Model

| member | source | states |
|---|---|---|
| Nested.SetGet | lib/utils.py:148 | Item assignment `d[k] = v` stores `v` under `k` and leaves every other key's value alone. It keeps the key order and appends `k` only if it was new. |
| Nested.ShallowUpdateGet | lib/patterns_targets.py:92-97 | `d.update(u)` takes `u`'s value wholesale for every key of `u`, with no merging of nested dicts. Every other key keeps `d`'s value. The keys are `d`'s in order, then the keys of `u` that `d` lacks, in `u`'s order. |
| Nested.ShallowUpdateKeys | lib/patterns_targets.py:92-97 | After `d.update(u)` the keys are `d`'s in order, then each key of `u` not already present, in `u`'s order. |
| Utils.Flatten | lib/utils.py:29-55 | `flatten` raises (None) exactly when the top-level argument is not iterable (an integer or boolean). Every result item is a string, number or boolean. Without `unlist` the result is always a list. |
| Utils.FlattenItem | lib/utils.py:44-51 | The generator never yields a dict or a list: nesting is always walked into. |
| Utils.FlattenItemLeaves | lib/utils.py:41-51 | An item is yielded exactly when it is a leaf reachable through list elements and dict values. Keys are never yielded, and no nested string is split. |
| Utils.FlattenSeqAppend | lib/utils.py:44-51 | Flattening the concatenation of two lists is the concatenation of their flattenings, so the walk is depth-first and in order. |
| Utils.FlattenEntriesAppend | lib/utils.py:41-49 | Flattening the items of a dict distributes over their concatenation: the values are walked depth first, in insertion order. |
| Utils.FlattenEntriesValues | lib/utils.py:41-47 | A dict flattens as the list of its values would. Its keys play no part. |
| Utils.FlattenSeqAtoms | lib/utils.py:48-51 | A list with no nesting flattens to itself. |
| Utils.FlattenIgnoresNesting | lib/utils.py:46-49 | Wrapping a value in a one-key dict or a one-element list does not change what it flattens to. |
| Utils.FlattenTopLevelString | lib/utils.py:45-51 | A bare top-level string is split into its characters. The same string inside a list is yielded whole. |
| Utils.FlattenUnlist | lib/utils.py:53-55 | `unlist` acts only on the top-level result: one result comes back bare, and any other count comes back as the list returned without `unlist`. |
| Utils.FlattenTestMixed | lib/utils.py:236-247 | The mixed dict/list example of `test_flatten` flattens to its seven strings. They come in insertion order a, b, c, e, f, g, d, which the test sorts. |
| Utils.FlattenTestUnlist | lib/utils.py:249-252 | `flatten('a', True)` and `flatten(['a'], True)` give `'a'`. `flatten('a')` and `flatten(['a'])` give `['a']`. |
| Utils.MapNested | lib/utils.py:76-79 | A dict maps to a dict with the same keys in the same order. |
| Utils.MapNestedAt | lib/utils.py:76-79 | Mapping commutes with lookup along any key path. At a non-dict leaf, lists included, the mapped tree holds `func(leaf)`. |
| Utils.MapNestedIdentity | lib/utils.py:76-79 | Mapping a function that changes nothing gives the same tree back. |
| Utils.MapNestedDocstring | lib/utils.py:71-73 | The docstring example: with `x < 3` on integers, `{'a': {'b': {'target': 1, 'ignore': 2}}, 'c': {'target': 3}}` maps to `True, True, False` at the same places. |
| Utils.ExtractNested | lib/utils.py:102-107 | A dict that lacks `key` keeps its keys, in order. |
| Utils.ExtractNestedAt | lib/utils.py:102-107 | Along a path whose dicts lack `key`, the nesting is kept. At the path's end, a dict holding `key` becomes `d[key]`, siblings dropped and not entered. A non-dict stays as it is, and any other dict stays a dict. |
| Utils.ExtractNestedKeyFree | lib/utils.py:102-107 | When no dict in the tree holds `key`, the tree comes back unchanged. |
| Utils.ExtractNestedDocstring | lib/utils.py:98-100 | The docstring example gives `{'a': {'b': 1}, 'c': 3}`. |
| Utils.PatternToRstFile | lib/utils.py:114 | The report file name contains no braces and ends in `.rst`. |
| Utils.PatternToRstFileShape | lib/utils.py:114 | The report file name is `reports/` + the brace-free pattern + `.rst`, unless the brace-free pattern is absolute; then POSIX `os.path.join` discards `reports`. |
| Utils.RemoveBracesLeavesNone | lib/utils.py:114 | The two `replace` calls leave no brace, and every other character occurs in the result exactly as often as in the pattern. |
| Utils.RemoveBracesAppend | lib/utils.py:114 | Brace removal works piece by piece over concatenation, so the kept characters keep their order. With the counts above, a single character is dropped exactly when it is a brace. |
| Utils.PatternToRstFileIgnoresBraces | lib/utils.py:114 | Braces around a placeholder make no difference: `a{b}c` and `abc` give the same report file. |
| Utils.UpdateCopy | lib/utils.py:141-149 | The copy holds `update_with[k]` for each in-scope key that `update_with` has, when `override` is set or `orig` lacks `k`. Every other key keeps `orig`'s value. Scope is `keys`, or all of `update_with` when `keys` is None. Listed keys absent from `update_with` are skipped. The keys are `orig`'s in order, then the in-scope keys that `update_with` holds and `orig` lacks, in scope order. `orig` is not changed. A copy of a proper dict has no repeated key. |
| Utils.UpdateCopyAgainstUpdate | lib/utils.py:135-139 | With all keys in scope, `override=True` agrees key by key with `dict.update`. `override=False` lets `orig` win every shared key. |
| Utils.UpdatedRecursively | lib/utils.py:168-175 | An empty update leaves `orig` as it is. A non-empty update that does not raise produces a dict. |
| Utils.UpdateRecursiveSucceeds | lib/utils.py:168-175 | For a proper dict `update_with`, `update_recursive` raises exactly in two cases: `orig` is not a dict while `update_with` is non-empty, or, at any depth, a non-empty mapping value meets an existing value that is not a dict. |
| Utils.UpdateRecursiveKeys | lib/patterns_targets.py:11-17 | Every key of `u` is present afterwards. Top-level keys absent from `u` keep their values. |
| Utils.UpdateRecursiveKeyOrder | lib/utils.py:168-175 | `orig`'s keys keep their positions. The keys of `u` that `orig` lacks are appended after them, in `u`'s order. |
| Utils.UpdateRecursiveDistinct | lib/utils.py:168-175 | The updated dict still has no repeated key. |
| Utils.UpdateRecursiveKeepsLeaves | lib/patterns_targets.py:11-17 | Whatever `orig` holds at a key path that `u` does not overwrite is still there, at every depth. A leaf keeps its value, and a dict, empty or not, stays a dict. |
| Utils.UpdateRecursiveGetMerged | lib/utils.py:170-172 | Under a key whose update value is a mapping, the result holds that mapping merged into what `orig` held under the key, or into `{}` when the key was absent. |
| Utils.UpdateRecursiveKeepsAtDepth | lib/patterns_targets.py:11-17 | At any key path where both `orig` and `u` hold dicts, every key that `u`'s dict lacks holds what `orig`'s dict held there. So a merged dict keeps its untouched entries with their whole subtrees, and gains no keys except `u`'s. |
| Utils.UpdateAppends | lib/utils.py:172 | Merging a proper dict into a dict that holds none of its keys appends its items unchanged. In particular a mapping merged into `orig.get(k, {})` for an absent `k` arrives as it is. |
| Utils.UpdateRecursivePlacesLeaves | lib/patterns_targets.py:13-16 | Every leaf of `u` lands at its own key path. A non-mapping value overwrites whatever was there, a list included. Where `orig` has nothing at a key path of `u`, the result holds exactly `u`'s value there, an empty mapping included, because an absent key starts from `{}`. |
| Utils.UpdateRecursiveDocstring | lib/utils.py:158-168 | The docstring's three calls: the first changes only `'b'`. The second is applied to the dict the first changed, so it keeps `'b': 5` and replaces the list under `'d'` by `1`. The third repeats the second on the updated dict, leaves it unchanged and gives the expected `{'a': {'b': 5, 'c': 2, 'd': 1}}`. |
| Utils.MutableDict.UpdateRecursive | lib/utils.py:168-175 | The loop updates the dict in place, one item at a time, to exactly `UpdatedRecursively` of its old contents. It returns the same object. |
| Utils.MutableDict.Update | lib/patterns_targets.py:93-97 | `self.update(u)` changes the dict in place to `ShallowUpdate` of its old items. |
| Utils.BooleanLabels | lib/utils.py:212-218 | The loop's label equals `BooleanLabel`: one `mapping[x] + '_' + name` piece per zipped pair, joined with `_`, with `strip` removed once if it is a prefix. |
| Utils.JoinPieces | lib/utils.py:213-215 | The joined label is the first connector and name, followed by one `_<connector>_<name>` clause per later pair, in input order. |
| Utils.BooleanLabelDefaults | lib/utils.py:212-218 | Under the defaults, empty input gives `""`. A leading True flag loses its `AND_`. A leading False flag keeps its `NOT_`. Inner `_AND_` and `_NOT_` connectors stay. |
| Utils.BooleanLabelDocstring | lib/utils.py:184-187 | `['exp1','exp2','exp3']` with `[True, True, False]` gives `exp1_AND_exp2_NOT_exp3`. |
| Utils.BooleanLabelZipTruncates | lib/utils.py:213 | Surplus names or flags beyond the shorter list make no difference. |
| PatternsTargets.PeakSliceDefined | lib/patterns_targets.py:84-86 | The per-caller slice exists (no KeyError or TypeError) exactly when every peak pattern is a dict holding the caller's key. |
| PatternsTargets.PeakSliceEntries | lib/patterns_targets.py:84-86 | The slice has the items of `patterns_by_peaks` in order. Each key maps to the one-key dict `{pc: patterns_by_peaks[k][pc]}`. |
| PatternsTargets.PeakSliceKeys | lib/patterns_targets.py:84-86 | The slice has exactly the top-level keys of `patterns_by_peaks`, in order. |
| PatternsTargets.PeakPatterns | lib/patterns_targets.py:84-86 | The nested loop builds exactly `PeakSlice`, and stops with None at the first item that raises. |
| PatternsTargets.PeakFill | lib/patterns_targets.py:87-89 | `_fill` has exactly the keys `peak_calling` and `<pc>_run`, holding the peak-calling directory and the caller's run names. |
| PatternsTargets.Filled | lib/patterns_targets.py:90 | The argument `helpers.fill_patterns(_peak_patterns, _fill)` of the merge is `fill` applied to the caller's slice and `_fill`. It is None exactly when some peak pattern lacks the caller's key or `fill` returns something other than a dict, because `items()` then fails. It is Some when the slice exists and `fill` gives a dict, and then it holds that dict's entries. |
| PatternsTargets.PeakTargetsFrom | lib/patterns_targets.py:83-90 | The per-caller loop, started from a dict, leaves a dict whenever no step raises. |
| PatternsTargets.PeakTargets | lib/patterns_targets.py:82-90 | `targets_for_peaks`, when the assembly does not raise, is a dict. |
| PatternsTargets.PeakTargetsTwoMerges | lib/patterns_targets.py:82-90 | `targets_for_peaks` starts as `{}`. Macs2's filled targets are deep-merged into it first, then spp's. Merging into `{}` keeps macs2's targets as they are, so the result is macs2's targets deep-updated with spp's. |
| PatternsTargets.PeakTargetsMergeOrder | lib/patterns_targets.py:82-90 | Every leaf of spp's targets is in the result at its key path. Every leaf of macs2's targets survives unless spp's targets overwrite that key path. |
| PatternsTargets.ShallowUnion | lib/patterns_targets.py:92-97 | `{}` updated with `a`, then `b`, is a shallow union. `b` wins each shared top-level key wholesale. The keys are `a`'s in order, then the keys only `b` has, in `b`'s order. |
| PatternsTargets.ChIPSeqConfig.constructor | lib/patterns_targets.py:82-97 | `targets_for_peaks` is a fresh dict mutated in place to `PeakTargets`. `targets` is the sample targets updated with it, and `patterns` is the sample patterns updated with the peak patterns. |
| PatternsTargets.TargetsUnion | lib/patterns_targets.py:92-94 | The assembled `targets` hold the peak targets for every key those have, and the sample targets for every other key. |

## Left out

- `temp_env` (lib/utils.py:13-26) changes the process environment, which is global state outside this model.
- `make_relative_symlink` (lib/utils.py:221-233) only checks the file system and runs shell commands.
- `render_r1_r2` (lib/utils.py:9-10) wraps Snakemake's `expand`, which is not part of this model.
- `helpers.fill_patterns` is not part of this model. It is the opaque parameter `fill`, and nothing is assumed about what it returns. A non-dict result makes the merge raise.
- `chipseq.peak_calling_dict` is not part of this model. The run names of a peak caller are the parameter `runs`.
- The `fill_by_peaks` dict (lib/patterns_targets.py:75-80) is built but never read, and its `combination='zip'` has no effect.
- The first `fill_by_sample` assignment (lib/patterns_targets.py:65) is overwritten on the next line.
- `targets_by_sample` (lib/patterns_targets.py:66-71) comes from `fill_patterns` and pandas sample-table filtering, so it is a constructor parameter.
- `SeqConfig` and `RNASeqConfig`, and the configuration plumbing of `ChIPSeqConfig.__init__` (lib/patterns_targets.py:21-70), are left out. They resolve configuration files, read YAML and query a sample table.
- The pattern trees and the peak-calling directory are constructor parameters.
- `ChIPSeqConfig.__init__` reads `self.patterns_yaml` (lib/patterns_targets.py:62), which nothing assigns. As written, the constructor raises before reaching the modelled steps, so the model starts from the pattern trees instead.
- The `collections.Mapping` test (lib/utils.py:171, lib/patterns_targets.py:13) is modelled as "is a dict". That name no longer exists in Python 3.10 and later; the version-dependent failure is not modelled.
- Values are strings, integers, booleans, lists and string-keyed dicts. Lists stand for every non-string iterable (tuples, generators, sets; set order is not modelled). Floats, None and non-string keys are not modelled.
- Utils.MutableDict.UpdateRecursive: only the top-level dict is an object. Nested dicts and lists are values, so sharing of nested objects between `orig` and `update_with` is not modelled. Neither are the later effects of such sharing.
- Utils.MutableDict.UpdateRecursive: requires that the update does not raise. The partly updated dict that Python leaves behind after an exception midway is not modelled; `UpdatedRecursively` reports the exception as None.
- Utils.BooleanLabels: requires every zipped flag to be a key of `mapping` instead of modelling the KeyError.
- Utils.UpdateCopy: `keys` is a list of strings. Other iterables of keys are not modelled.
- PatternsTargets.PeakPatterns: yields None for any raising item, not the exception's kind (KeyError or TypeError).
- PatternsTargets.ChIPSeqConfig.constructor: requires the assembly not to raise, and requires `patterns_by_peaks` to have distinct keys, as every Python dict does.
- Python's lazy generator in `flatten` is modelled by the list it produces.
- Repeating the assembly with the same inputs gives the same trees. This is immediate, because the constructor's results are functions of its parameters, so it has no lemma of its own.
