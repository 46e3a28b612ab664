# Text-pair cleaning helpers, modelled in Dafny

The module `capstone_1/cleaning_funcs.py` prepares training data for text summarisation. It has four helpers:

- `tup_list_maker` flattens `(text_id, [sentences])` groups into `(text_id, sentence)` pairs. It keeps group order and sentence order.
- `is_summary` labels a number `'yes'` when it is nonzero and `'no'` when it is zero.
- `is_sentence` says whether a fragment has more than one part when split on a single space.
- `clean_n_char` deletes the `'\n'` character at the beginning of a sentence.

The project has two modules:

- `PyStrings` (`py_strings.dfy`) models the Python string operations the helpers use. These are `str.split(sep)` with an explicit one-character separator, `sep.join`, and slicing, which clamps its bounds to the string. The lemmas about `Split` are what let the helpers be stated in terms of characters.
- `CleaningFuncs` (`cleaning_funcs.dfy`) models the four helpers. `tup_list_maker` appends in nested loops, so it is a method. Its loops are proved against the `Flatten` function, which is the reference definition. The other three helpers are pure expressions in the source, so they are functions.

A group is the datatype `Group(id, sentences)`. The id has a type parameter because the source treats it as an opaque token. A label is an `int`.

Some behaviour of the code that is easy to miss:

- `clean_n_char("")` returns `""` and raises nothing, because `"".split(' ') == ['']` and `''[:1] != '\n'`.
- `is_sentence` counts parts split on `' '`, although its docstring (`capstone_1/cleaning_funcs.py:29`) says "more than one word". So `"a "` counts as a sentence (its parts are `['a', '']`), and `"a\tb"` does not.
- `tup_list_maker` raises no error of its own.

## Model

| member | source | states |
|---|---|---|
| PyStrings.Split | capstone_1/cleaning_funcs.py:31 | `s.split(sep)` keeps empty parts and never returns an empty list |
| PyStrings.SplitCount | capstone_1/cleaning_funcs.py:31 | the number of parts is the number of separators in `s` plus one |
| PyStrings.SplitFirst | capstone_1/cleaning_funcs.py:38-39 | part 0 is a separator-free prefix of `s`, followed either by a separator or by the end of `s` |
| PyStrings.SplitPartsFree | capstone_1/cleaning_funcs.py:38 | no part contains the separator |
| PyStrings.JoinSplit | capstone_1/cleaning_funcs.py:38 | `sep.join(s.split(sep)) == s`, so splitting loses no characters |
| PyStrings.SplitGluesPrefix | capstone_1/cleaning_funcs.py:38 | splitting `p + t`, where `p` has no separator, puts `p` in front of the first part of `t` and leaves the other parts as they are |
| PyStrings.SplitJoin | capstone_1/cleaning_funcs.py:38 | splitting a join of one or more separator-free parts gives back exactly those parts, so the split is the only such decomposition |
| PyStrings.SliceTo | capstone_1/cleaning_funcs.py:40 | `s[:j]` is a prefix of `s` of length `min(j, len(s))`, and it does not fail when `j > len(s)` |
| PyStrings.SliceFrom | capstone_1/cleaning_funcs.py:41 | `s[i:]` is the suffix of `s` of length `len(s) - i`, or empty when `i > len(s)` |
| CleaningFuncs.BroadcastAppend | capstone_1/cleaning_funcs.py:10-12 | the pairs for sentences `s + t` are the pairs for `s` followed by the pairs for `t`, so appending one pair per sentence, in order, builds a group's contribution |
| CleaningFuncs.FlattenAppend | capstone_1/cleaning_funcs.py:7-12 | the output for `a + b` is the output for `a` followed by the output for `b`, so group order is kept |
| CleaningFuncs.FlattenLength | capstone_1/cleaning_funcs.py:6-13 | the output length is the sum of the groups' sentence counts |
| CleaningFuncs.FlattenAt | capstone_1/cleaning_funcs.py:7-12 | sentence `j` of group `i` is at position (sentences in earlier groups) + `j`, paired with group `i`'s id, so nothing is reordered, dropped or deduplicated |
| CleaningFuncs.FlattenSkipsEmptyGroup | capstone_1/cleaning_funcs.py:10 | a group with no sentences contributes no pairs, wherever it stands |
| CleaningFuncs.TupListMaker | capstone_1/cleaning_funcs.py:1-13 | the appended list equals `Flatten` of the input, and its length is the total sentence count; an empty input gives `[]` |
| CleaningFuncs.IsSummary | capstone_1/cleaning_funcs.py:16-24 | the result is `"yes"` exactly when the number is nonzero and `"no"` exactly when it is zero; nothing else is returned |
| CleaningFuncs.IsSentence | capstone_1/cleaning_funcs.py:27-31 | more than one space-separated part holds exactly when the fragment contains a `' '` |
| CleaningFuncs.CleanNChar | capstone_1/cleaning_funcs.py:34-43 | the result is `s[1:]` when `s` starts with `'\n'` and `s` otherwise, including `""`; it is always a suffix of `s` that is at most one character shorter |
| CleaningFuncs.PipelineExampleFlatten | capstone_1/cleaning_funcs.py:6-13 | two groups, `doc1` with two sentences and `doc2` with none, give two `doc1` pairs in sentence order |
| CleaningFuncs.PipelineExampleClassify | capstone_1/cleaning_funcs.py:31 | `"\nFirst sentence here"` and `"a "` are sentences; `"word"` and `""` are not |
| CleaningFuncs.PipelineExampleClean | capstone_1/cleaning_funcs.py:38-43 | the leading newline of `"\nFirst sentence here"` is stripped; `"\n\nx"` loses only one newline; `" \nx"` and `""` are unchanged |

## Left out

- IsSummary: labels are `int`. Float labels are not modelled, so NaN, `-0.0` and rounding are out of scope. The zero/nonzero rule is the same.
- TupListMaker: each input element is a typed `Group`. Python's positional access `item[0]`, `item[1]` on arbitrary objects is not modelled. Neither is the `IndexError`/`TypeError` such access raises on a malformed element.
- Splitting on general whitespace is not modelled, because the source splits only on a literal `' '`.
- Loading the dataset and serialising the output are not part of this model. No I/O appears in the helpers.
