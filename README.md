# ASVspoof 2019 protocol parsing and dataset assembly, in Dafny

A model of the metadata side of `ASVDataset` in `data_utils.py`, the dataset
wrapper of the ASVspoof 2019 logical-access anti-spoofing corpus:

- the protocol-line parser `_parse_line` with its fixed table `sys_id_dict`
  (seven spoofing-system labels numbered 0 to 6), which reads the stripped
  line's space-separated tokens by position: speaker id, audio base name,
  system label, bonafide/spoof key;
- `parse_protocols_file`, which maps `_parse_line` over the file's lines;
- the part of `__init__` that does no I/O: the optional resampling with
  replacement, pairing each record with its key as a float label and its
  system id (`read_file`), unpacking the samples into the three parallel
  lists `data_x`, `data_y`, `data_sysid`, the optional element-wise
  transform, `length`, and the accessors `__len__` and `__getitem__`.

Files:

- `wrappers.dfy` (module `Wrappers`): `Option`, `Result`, and `MapResult`,
  which is `list(map(f, xs))` for an `f` that may raise: the first failing
  element's error, or one result per element in order.
- `pystr.dfy` (module `PyStr`): Python's `str.strip()`, `str.split(' ')`
  (two spaces in a row give an empty token, the empty string gives `['']`),
  `' '.join`, and `os.path.join` of two components (POSIX rules).
- `protocol.dfy` (module `Protocol`): `ASVFile`, `SysIdDict`, `ParseLine`,
  `ParseProtocolsFile` and their properties.
- `dataset.dfy` (module `Dataset`): the construction pipeline as functions
  (`Records`, `Columns`, `Load`), the class `ASVDataset` whose static method
  `Create` runs `__init__` step by step and whose constructor `Assemble` sets
  the fields, and `Len`/`GetItem`.

Python exceptions are `Failure` values: `ParseError` holds `IndexError`
(with the token index that was missing) and `KeyError` (with the unknown
label); `InitError` says which stage of construction raised, including
`TransformFailed` when the transform raises on some audio. The order in
which `_parse_line` fails follows Python's left-to-right evaluation of the
keyword arguments: token 1, then token 3, then the table lookup, then
token 4. So a four-token line with an unknown label raises `KeyError`, not
`IndexError`.

Things the environment supplies become parameters:

- the protocol file's lines (`readlines()`), a `seq<string>`;
- the indices `np.random.choice` would draw, `selectIdx`, required to hold
  exactly `sample_size` indices below the number of lines whenever that call
  would succeed;
- the audio reader `soundfile.read`, a function from path to `Option<Audio>`
  (`None` where it raises), with the audio an opaque type parameter;
- the transform, an `Option<Transform<Audio>>`, where a `Transform<Audio>` is
  a function `Audio -> Option<Audio>` that yields `None` where the Python
  callable raises.

Details of the source that the model keeps:

- `if sample_size:` is Python truthiness, so `sample_size=0` means no
  resampling (`LoadSampleSizeZero`).
- A negative `sample_size`, or a positive one with no records, makes
  `np.random.choice` raise (`ChoiceFailed`).
- An empty protocol file never yields a dataset. `zip(*data)` over no
  samples unpacks into three names and raises (`UnpackFailed`, `LoadEmptyFails`).
- `__getitem__` indexes Python lists, so a negative index counts from the end.

The parser does not skip blank lines: a blank line strips to `''`, splits
into `['']` and raises `IndexError` on token 1, so a protocol file with a
blank line (a trailing empty line included) cannot be parsed
(`BlankLineFails`).

## Model

| member | source | states |
|---|---|---|
| `Protocol.SysIdDictShape` | data_utils.py:22-30 | the label table has exactly the seven labels `-`, `SS_1`, `SS_2`, `SS_4`, `US_1`, `VC_1`, `VC_4`, its values are exactly 0..6, and no two labels share a value |
| `Protocol.SysLabel` | data_utils.py:22-30 | the inverse of the table: a label it returns maps back to the given id |
| `Protocol.SysLabelOfId` | data_utils.py:22-30 | every table value is in 0..6 and `SysLabel` recovers the label from it |
| `Protocol.Tokens` | data_utils.py:71 | `line.strip().split(' ')` always yields at least one token |
| `Protocol.ParseLine` | data_utils.py:70-75 | over the tokens of the stripped line, parsing succeeds exactly when there are at least 5 tokens and token 3 is in the table; the record is token 0 as speaker id, `files_dir` joined with token 1 + `.flac` as path, the table value of token 3 as sys_id, key 1 exactly when token 4 is `bonafide` and 0 otherwise; each failure is the `IndexError`/`KeyError` Python raises first |
| `Protocol.FormatLineColumns` | data_utils.py:71 | a line in protocol format is its five columns separated by single spaces |
| `Protocol.TokensOfJoin` | data_utils.py:71 | space-free columns joined by single spaces, first and last non-empty, tokenise back to exactly those columns |
| `Protocol.ParseFormatLine` | data_utils.py:70-75 | parsing a well-formed five-column line recovers the speaker id, the audio path, the table value of the label and the bonafide key |
| `Protocol.ParseUnknownLabel` | data_utils.py:74 | a line of four or more columns whose label is outside the table fails with `KeyError` on that label |
| `Protocol.ParseBonafideExample` | data_utils.py:70-75 | `LA_0001 LA_T_001 - - bonafide` parses to speaker `LA_0001`, path `<files_dir>/LA_T_001.flac`, sys_id 0, key 1 |
| `Protocol.UnknownLabelExample` | data_utils.py:74 | `LA_0079 LA_T_1 - SS_3` fails with `KeyError("SS_3")` |
| `Protocol.BlankLineFails` | data_utils.py:71-72 | a blank or all-white-space line yields the tokens `['']` and fails with `IndexError` on token 1 |
| `Protocol.ShortLineFails` | data_utils.py:71-75 | a stripped line with fewer than four spaces, hence fewer than five tokens, fails |
| `Protocol.ParseLineTrailingSpace` | data_utils.py:71 | the newline `readlines()` keeps, or any trailing white space, does not change the parse |
| `Protocol.SpeakerIdHasNoSpace` | data_utils.py:71-72 | a parsed speaker id contains no space |
| `Protocol.FileNameShape` | data_utils.py:73 | the path ends with token 1 + `.flac`, and is `files_dir/` + token 1 + `.flac` for a relative token under a directory not ending in `/` |
| `Protocol.ParseProtocolsFile` | data_utils.py:77-80 | succeeds exactly when every line parses; then one record per line, in order, record i being the parse of line i; otherwise the error is that of the first failing line |
| `Protocol.ParsedRecordsInRange` | data_utils.py:74-75 | every parsed record has key 0 or 1 and sys_id in 0..6 |
| `Protocol.ParseProtocolsFileAppend` | data_utils.py:79-80 | parsing a concatenation of two line sequences is the concatenation of their parses, and fails exactly when one part fails |
| `Wrappers.MapResult` | data_utils.py:79-80 | `list(map(f, xs))` with a raising `f`: every element succeeds and the results come one per element in order, or the error is that of the first failing element |
| `Wrappers.MapResultAppend` | data_utils.py:79-80 | mapping distributes over concatenation |
| `PyStr.IsSpaceTable` | data_utils.py:71 | the white space `strip()` removes (`IsSpace`, `str.isspace()`) is exactly the 29 code points TAB, LF, VT, FF, CR, U+001C to U+001F, SPACE, U+0085, U+00A0, U+1680, U+2000 to U+200A, U+2028, U+2029, U+202F, U+205F and U+3000 |
| `PyStr.StripLeading` | data_utils.py:71 | removes exactly the leading white space |
| `PyStr.StripTrailing` | data_utils.py:71 | removes exactly the trailing white space |
| `PyStr.Strip` | data_utils.py:71 | the result is a middle slice of the line with only white space outside it and no white space at its ends |
| `PyStr.TrimmedOfCuts` | data_utils.py:71 | cutting the trailing and then the leading white space leaves a trimmed middle of the line |
| `PyStr.TrimmedUnique` | data_utils.py:71 | two trimmings of one line leave the same middle |
| `PyStr.StripUnique` | data_utils.py:71 | there is only one such slice, so `Strip` is `str.strip()` |
| `PyStr.StripUnchanged` | data_utils.py:71 | a line with no white space at either end is left alone |
| `PyStr.StripTrailingSpace` | data_utils.py:71 | one trailing white-space character makes no difference |
| `PyStr.StripTrailingSpaces` | data_utils.py:71 | any run of trailing white space makes no difference |
| `PyStr.StripAllSpace` | data_utils.py:71 | an all-white-space line strips to `''` |
| `PyStr.TrimmedEmpty` | data_utils.py:71 | the stripped line is empty exactly when the line is all white space |
| `PyStr.Split` | data_utils.py:71 | `split(' ')` always yields at least one piece |
| `PyStr.JoinSplit` | data_utils.py:71 | joining the pieces of a split with the separator gives back the string |
| `PyStr.SplitJoin` | data_utils.py:71 | splitting a join of separator-free pieces gives back the pieces |
| `PyStr.SplitPiecesLackSep` | data_utils.py:71 | no token contains a space |
| `PyStr.SplitCount` | data_utils.py:71 | the number of tokens is the number of spaces plus one, so consecutive spaces give empty tokens |
| `PyStr.SplitWithoutSep` | data_utils.py:71 | a string without spaces is one token |
| `PyStr.SplitAtFirstSep` | data_utils.py:71 | splitting at the first space gives the prefix and then the tokens of the rest |
| `PyStr.JoinEnds` | data_utils.py:71 | a joined line begins with its first column and ends with its last |
| `PyStr.PathJoin` | data_utils.py:73 | `os.path.join(a, b)` with an absolute `b` is `b`; with a relative `b` it keeps all of `a` and `b` |
| `PyStr.PathJoinShape` | data_utils.py:73 | `os.path.join(files_dir, name)` ends with `name`, begins with `files_dir` for a relative name, and puts exactly one `/` between them when `files_dir` does not end in one |
| `Dataset.DsetName` | data_utils.py:32 | `dset_name` is `train` exactly for the training split and `dev` exactly otherwise |
| `Dataset.FilesDir` | data_utils.py:32-37 | under a root that is neither empty nor ends in `/`, `files_dir` is `<root>/ASVspoof2019_LA_<train or dev>/flac` |
| `Dataset.ProtocolsFname` | data_utils.py:33-39 | under such a root, the protocol file is `<root>/ASVspoof2019_LA_protocols/ASVspoof2019.LA.cm.<train.trn or dev.trl>.txt`, the protocols directory bringing its own `/` |
| `Dataset.ReadFile` | data_utils.py:66-69 | `read_file` succeeds exactly when the record's audio can be read; the sample is that audio, the key as a float and the sys_id; otherwise the error names the path |
| `Dataset.ReadAll` | data_utils.py:45 | reading succeeds exactly when every record's audio can be read; sample i is then record i's audio, its key as a float and its sys_id, in order; otherwise the error names the first unreadable path |
| `Dataset.Truthy` | data_utils.py:42 | `if sample_size:` is false exactly for `None` and `0`, so a negative size resamples |
| `Dataset.DrawFits` | data_utils.py:43 | what `np.random.choice(n, size=(k,), replace=True)` returns: `k` indices, all below `n`, so a non-empty draw needs a non-empty population |
| `Dataset.DrawAvailable` | data_utils.py:42-43 | the supplied indices are constrained only when the draw is made and succeeds (truthy positive `sample_size`, records present), and then are `sample_size` indices below the number of records; otherwise any indices will do |
| `Dataset.Select` | data_utils.py:44 | `[xs[i] for i in idx]`: one entry per index, entry j being `xs[idx[j]]` |
| `Dataset.SelectRange` | data_utils.py:44 | selecting every index once, in order, keeps the list |
| `Dataset.SelectFromOriginal` | data_utils.py:44 | a selection holds only entries of the original |
| `Dataset.Subsample` | data_utils.py:42-44 | with a falsy `sample_size` the records are unchanged; with a truthy one there are exactly `sample_size` of them, entry j being record `select_idx[j]`; a negative size or an empty list fails as `np.random.choice` does |
| `Dataset.Zip` | data_utils.py:51 | rebuilding samples from three columns keeps the length |
| `Dataset.AudioColumn` | data_utils.py:51 | `data_x` holds the audio of every sample, in order |
| `Dataset.LabelColumn` | data_utils.py:51 | `data_y` holds the label of every sample, in order |
| `Dataset.SysidColumn` | data_utils.py:51 | `data_sysid` holds the system id of every sample, in order |
| `Dataset.Unzip` | data_utils.py:51 | `map(list, zip(*data))` unpacked into three names fails exactly on empty data; otherwise the three columns are as long as the data and position i holds sample i's audio, label and system id |
| `Dataset.ZipUnzip` | data_utils.py:51 | zipping the unpacked columns gives back the samples |
| `Dataset.UnzipZip` | data_utils.py:51 | unpacking zipped columns gives back the columns |
| `Dataset.Transformed` | data_utils.py:53 | `list(map(transform, data_x))` succeeds exactly when the transform succeeds on every audio; it then keeps the length and maps element by element, and otherwise fails with `TransformFailed` |
| `Dataset.TransformedSelect` | data_utils.py:44-53 | on audio it succeeds on, the transform commutes with resampling |
| `Dataset.MaybeTransformed` | data_utils.py:52-53 | without a transform the audio column is kept; with one it keeps its length, and only the transform can make this step fail |
| `Dataset.Records` | data_utils.py:40-44 | the kept records number `sample_size` (truthy) or one per line, and this stage fails only in the parse or in the draw |
| `Dataset.RecordsSpec` | data_utils.py:40-44 | the records `files_meta` ends with: present exactly when every line parses and the draw does not raise; as many as `sample_size` (truthy) or lines; record j is the parse of line `select_idx[j]` (or line j), with a binary key and sys_id in 0..6 |
| `Dataset.ColumnsSpec` | data_utils.py:45-51 | the three columns exist exactly when there is a record and every audio is readable; they have the records' length, and position i holds record i's audio, key as float and sys_id |
| `Dataset.Columns` | data_utils.py:45-51 | the three columns, when there are any, are as long as the records, of which there is at least one; this stage fails only in reading or in unpacking |
| `Dataset.Load` | data_utils.py:40-56 | a built dataset has four lists of one positive length |
| `Dataset.LoadOfStages` | data_utils.py:40-56 | once the records are kept and the samples read, construction fails exactly when the transform fails, with its error, and otherwise holds the records, the transformed audio column and the other two columns, consistently |
| `Dataset.LoadParseFailure` | data_utils.py:40 | a line that does not parse aborts construction with the parser's error |
| `Dataset.LoadEmptyFails` | data_utils.py:42-51 | an empty protocol file fails in `np.random.choice` when resampling, in the unpacking otherwise |
| `Dataset.ReadAndTransformSucceed` | data_utils.py:45-53 | past the records, construction succeeds exactly when there is a record, every record's audio is readable and the transform, when given, succeeds on each of those audios |
| `Dataset.LoadSucceeds` | data_utils.py:40-56 | construction succeeds exactly when every line parses, the draw does not raise, at least one record is kept, every kept record's audio is readable and the transform, when given, succeeds on each of those audios |
| `Dataset.LoadCount` | data_utils.py:42-56 | a built dataset has exactly `sample_size` samples when resampling and one per line otherwise, in each of the four lists |
| `Dataset.LoadRecords` | data_utils.py:40-44 | record j of a built dataset is the parse of line `select_idx[j]` when resampling, of line j otherwise |
| `Dataset.LoadSamples` | data_utils.py:45-53 | sample i holds the audio of record i (the transform's result on it when a transform is given, which then succeeded), its key as the label 0.0 or 1.0, and its sys_id in 0..6 |
| `Dataset.LoadConsistent` | data_utils.py:44-56 | the four lists of a built dataset are parallel and non-empty, each label and sys_id matching the record at that position |
| `Dataset.LoadTransformOnlyAudio` | data_utils.py:52-53 | with a transform, construction succeeds exactly when it does without one and the transform succeeds on every audio; an earlier failure is unchanged, a failure of the transform alone is `TransformFailed`; a success has the same records, labels and sys_ids, with the audio mapped element by element |
| `Dataset.LoadSampleSizeZero` | data_utils.py:42 | `sample_size=0` behaves as no `sample_size` |
| `Dataset.ASVDataset.Assemble` | data_utils.py:31-56 | the new object holds the split's configuration, the chosen records, the transform, the three given columns and `length` equal to their length; columns consistent with the records make it valid |
| `Dataset.ASVDataset.Create` | data_utils.py:20-56 | construction fails exactly when the functional pipeline fails (a raising transform included), with the same error; otherwise a fresh valid dataset whose records and three lists are those of the pipeline |
| `Dataset.ASVDataset.Len` | data_utils.py:58-59 | `__len__` is the common, positive length of `data_x` and `data_y` |
| `Dataset.ASVDataset.GetItem` | data_utils.py:61-64 | `__getitem__(idx)` returns `(data_x[idx], data_y[idx])`, without the sys_id, for `0 <= idx < length`, counts from the end for `-length <= idx < 0`, and raises `IndexError` (`GetItemError`) otherwise |
| `Dataset.GetItemLabel` | data_utils.py:61-69 | the label `__getitem__` returns is the key of the record at that position, so 1.0 exactly for a bonafide record |

## Left out

- The on-disk cache (`cache_<split>.npy`, lines 47-49 and 54-55): file I/O. As written, lines 49, 54 and 55 are mis-indented, which is an `IndentationError` that stops the whole module from loading. Separately, `np.loadz` (line 48) is not a numpy function and would raise `AttributeError` when reached. It is never reached: `np.savez` (line 54) appends `.npz` to `cache_<split>.npy`, so the `os.path.exists` test of line 47 never finds the file that was written. Once the indentation is fixed, every run takes the cache-miss path, which is the only path the model has. A cache hit, which would ignore `sample_size` and the transform, is therefore not modelled.
- `soundfile.read` (line 67): foreign library and file I/O. It is a caller-supplied function from path to optional opaque audio, and the sample rate it returns is dropped as the source drops it.
- `np.random.choice` (line 43): randomness. The drawn indices are the parameter `selectIdx`.
- `open(...).readlines()` (line 78): file I/O. The lines are a parameter, each possibly ending in the newline `readlines()` keeps, which `strip()` removes.
- The two informational `print` calls (lines 49 and 55): console output only.
- The torch `Dataset` base class (line 18), the `librosa` import (line 8) and the `verbose` argument of `namedtuple` (line 16): framework wiring with no effect on the values built.
- The `__main__` size assertions (lines 82-86): checks that depend on the real corpus.
- The default arguments of `__init__` (line 20: `data_root='data_logical'`, `transform=None`, `is_train=True`, `sample_size=None`): `Create` takes every argument explicitly, so a caller passes those values to get the defaults.
- Python's own string type is a sequence of code points. `str.strip()` is modelled on that, using the white-space set of `str.isspace()`, without Unicode normalisation.
