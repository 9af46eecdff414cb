# ClearNLP converter adapter, modelled in Dafny

`clearnlp/converter.py` wraps the ClearNLP constituency-to-dependency
converter, a Java program. A `SubprocessConverter` is configured once with a
classpath of jars, a head-rules file, a Java launcher and a main class. Its
`convert_file` starts Java on an input file of Penn Treebank trees and returns
the text found in the `.dep` file next to that input once the run is over. Its
`convert_trees` writes a list of trees to a fixed scratch file, one stripped
tree per blank-line-terminated block, converts that file, strips the output
and cuts it at every blank line. The pieces are one block per tree when the
converter's output has the shape `BatchCorrespondence` requires: as many
non-empty, stripped blocks as there were trees, with no blank line inside a
block. That shape is enough, not necessary: other outputs can also give one
piece per tree. A separate static classifier turns the process's exit code and
standard error into the adapter's errors.

The project has five modules:

- `Wrappers` (`wrappers.dfy`): `Option` and `Result`.
- `PyStr` (`pystr.dfy`): the Python string operations the adapter relies on.
  These are `str.strip()` with Python's white-space set, the `in` test through
  `str.find`, `sep.join` and `str.split(sep)`. It also proves that splitting
  undoes joining when the separator delimits every part.
- `PosixPath` (`posixpath.dfy`): `os.path.join` on POSIX.
- `TextIO` (`textio.dfy`): the newline translation of a file read in text
  mode, where `\r\n` and a lone `\r` both become `\n`.
- `Converter` (`converter.dfy`): the default configuration and the
  `SubprocessConverter` class (constructor, command line, `ConvertFile`,
  `ConvertTrees`). It also holds the batch serialisation and its round trip,
  and the failure classifier with its rule table.

The external converter is a parameter of type `Tool`. Given the command line
and the text of the input file, it yields the raw contents of the file at
`file_loc + '.dep'` once the run is over, or `None` when no file exists
there. That file need not have been written by this run. `ConvertFile`
reads those contents in text mode, so every `\r\n` and every lone `\r` comes
back as `\n`. The directory the Python module is installed in (`PWD`) is an
opaque string given to the constructor.

Two behaviours of the code are easy to miss:

- An empty list of trees is not turned into an empty result. The scratch
  file is empty, and if the converter answers with white space only, the
  result is `[""]`, because splitting an empty string yields one empty string
  (`EmptyBatch`).
- `convert_file` never calls the classifier. It reads the exit code and
  standard error and then ignores them. `ConvertFile` does the same, and
  `Classify` stands alone.

## Model

| member | source | states |
|---|---|---|
| `PyStr.StripLeft` | clearnlp/converter.py:50 | the result is a suffix of the input that does not start with white space |
| `PyStr.StripRight` | clearnlp/converter.py:50 | the result is a prefix of the input that does not end with white space |
| `PyStr.Strip` | clearnlp/converter.py:50 | `str.strip()` leaves no white space at either end |
| `PyStr.StripIsSlice` | clearnlp/converter.py:50 | `str.strip()` keeps a contiguous slice of the input; everything cut off on either side is white space |
| `PyStr.StripPadded` | clearnlp/converter.py:52 | stripping white space padded around a stripped string gives that string back |
| `PyStr.StripIdempotent` | clearnlp/converter.py:50-52 | stripping twice is the same as stripping once |
| `PyStr.Find` | clearnlp/converter.py:81 | `str.find` returns an index where the separator occurs and no occurrence lies before it; `None` means it occurs nowhere |
| `PyStr.FindIsLeast` | clearnlp/converter.py:81 | an occurrence with none before it is what `str.find` returns |
| `PyStr.Contains` | clearnlp/converter.py:81-88 | the `in` test on standard error holds exactly when the marker occurs at some position |
| `PyStr.Join` | clearnlp/converter.py:58 | `sep.join` of no parts is the empty string, and the joined string is at least as long as each part |
| `PyStr.JoinEnds` | clearnlp/converter.py:58 | a joined string starts with the first part and ends with the last |
| `PyStr.JoinStripped` | clearnlp/converter.py:52 | parts with no white space at the outer ends join into a stripped string |
| `PyStr.Split` | clearnlp/converter.py:52 | `str.split(sep)` gives at least one piece; no piece contains the separator; every piece but the last ends where the first occurrence of the separator after it begins, so the cuts are made left to right; joining the pieces with the separator gives back the input |
| `PyStr.SplitJoin` | clearnlp/converter.py:52 | splitting parts joined by a separator recovers the parts, in order, when the separator delimits every part but the last and the last does not contain it; so a split is the only list with `Split`'s properties |
| `PyStr.DelimitsExcludesSep` | clearnlp/converter.py:52 | a part that a non-empty separator delimits does not contain it, so the conditions of `SplitJoin` agree with `Split`'s promise that no piece contains the separator |
| `PyStr.DelimitsOneChar` | clearnlp/converter.py:58 | a one-character separator such as `:` delimits every part that does not contain it |
| `PyStr.DelimitsStripped` | clearnlp/converter.py:50-52 | a white-space separator such as the blank line delimits every non-empty stripped part that does not contain it |
| `PosixPath.Join` | clearnlp/converter.py:43-44 | `os.path.join(a, b)` ends with `b`; an absolute `b` replaces `a`; otherwise the result is exactly `a + b` when `a` is empty or ends in `/`, and `a + '/' + b` when it does not |
| `TextIO.TranslateNewlines` | clearnlp/converter.py:75-76 | text read in text mode holds no carriage return and is never longer than the raw contents |
| `TextIO.TranslateFixesPlainText` | clearnlp/converter.py:75-76 | contents without a carriage return read back unchanged |
| `TextIO.TranslateConcat` | clearnlp/converter.py:75-76 | reading two pieces of contents gives the two readings one after the other, unless a `\r` ends the first and a `\n` starts the second |
| `TextIO.CrLfIsOneNewline` | clearnlp/converter.py:75-76 | a `\r\n` line ending reads back as a single `\n` between the readings of what surrounds it |
| `TextIO.LoneCrIsOneNewline` | clearnlp/converter.py:75-76 | a `\r` not followed by `\n` reads back as a single `\n` between the readings of what surrounds it |
| `Converter.ResourcePath` | clearnlp/converter.py:38 | `os.path.join(PWD, 'ext', name)` ends with `name`; an absolute name is kept as it is; a relative name becomes `pwd/ext/<name>` when `pwd` has no trailing `/` |
| `Converter.ClassPath` | clearnlp/converter.py:43-44 | the classpath has one entry per jar name, and entry `k` is the resource path of name `k` |
| `Converter.ClassPathEntries` | clearnlp/converter.py:43-44 | for a non-empty `pwd` with no trailing `/`, the classpath has one entry per jar name, in order; a relative name becomes `pwd/ext/<name>`, an absolute name is kept as it is |
| `Converter.DefaultClassPath` | clearnlp/converter.py:31-36 | the default classpath has the 7 bundled jars, in order, each entry ending with its jar name |
| `Converter.SubprocessConverter.constructor` | clearnlp/converter.py:28-44 | the launcher (default `java`) and the class name are stored as given; a missing head-rules path defaults to `pwd/ext/headrule_en_stanford.txt`; the classpath is built from the given or the default jar names |
| `Converter.CommandStringDefaults` | clearnlp/tests/test_converter.py:8-12 | a converter built without a launcher uses `java`, and one built with `java8` keeps it |
| `Converter.SubprocessConverter.ScratchPath` | clearnlp/converter.py:47 | the scratch path ends with `tmp.parse` and is `pwd/tmp.parse` when `pwd` has no trailing `/` |
| `Converter.SubprocessConverter.Command` | clearnlp/converter.py:56-61 | the command has nine elements in the shape the converter reads; it carries the configured launcher, main class and head rules and the given input file in their places, and the `-cp` argument is the classpath entries joined by `:`, for every classpath, including an empty one |
| `Converter.CommandRoundTrip` | clearnlp/converter.py:56-61 | the 9-element command puts the launcher, `-ea`, `-cp`, the classpath, the class name, `-h`, the head rules, `-i` and the input in that order; the classpath argument splits back on `:` into the configured entries when there is at least one and none contains `:` |
| `Converter.OutputPath` | clearnlp/converter.py:75 | the output path is the input path followed by `.dep`, and nothing else |
| `Converter.OutputPathInjective` | clearnlp/converter.py:75 | the output path starts with the input path, and distinct input paths never share an output path |
| `Converter.SubprocessConverter.ConvertFile` | clearnlp/converter.py:54-77 | succeeds exactly when a file exists at `file_loc + '.dep'` after the run, whatever the exit code and standard error; the result is that file's contents read in text mode, with no carriage return left; otherwise the error is file-not-found for exactly that path |
| `Converter.StripAll` | clearnlp/converter.py:50 | one stripped tree per tree, in order |
| `Converter.Serialise` | clearnlp/converter.py:48-51 | the scratch text is empty for no trees; otherwise it is the stripped trees joined by a blank line, followed by one blank line |
| `Converter.SplitResults` | clearnlp/converter.py:52 | `strip().split('\n\n')` gives at least one piece, no piece holds a blank line, every piece but the last ends at the first blank line after it (so the cuts are made left to right), and the pieces joined by blank lines are the stripped output; with `SplitJoin` this fixes the pieces uniquely |
| `Converter.SubprocessConverter.ConvertTrees` | clearnlp/converter.py:46-52 | the loop builds exactly the serialisation of the trees and converts the scratch file; the result is the stripped output cut at blank lines, or the file-not-found error of `convert_file` |
| `Converter.SplitResultsRecoversBlocks` | clearnlp/converter.py:52 | blocks joined by blank lines and surrounded by any white space come back exactly, in order, from `strip().split('\n\n')`, when each block is non-empty, stripped and has no blank line inside |
| `Converter.BlankDelimitsBlocks` | clearnlp/converter.py:50-52 | the blank line delimits every such block |
| `Converter.BatchRoundTrip` | clearnlp/tests/test_converter.py:57 | splitting the stripped serialisation of the trees gives back the stripped trees, as many as there are trees, when every stripped tree is non-empty and has no blank line inside |
| `Converter.BatchCorrespondence` | clearnlp/converter.py:46-52 | when the `.dep` file read after the run holds, once newlines are translated, one well-formed block per tree between blank lines, the batch result is those blocks: as many as there were trees, in order |
| `Converter.EmptyBatch` | clearnlp/converter.py:49-52 | no trees give an empty scratch file, and a white-space-only answer gives `[""]`, not an empty list |
| `Converter.Outcome.Message` | clearnlp/converter.py:82-113 | each raised error carries its own message: the malformed-tree, Java-version and bad-exit messages each belong to exactly one outcome |
| `Converter.Classify` | clearnlp/converter.py:79-92 | a Penn Treebank warning in stderr means a malformed-tree error, whatever the exit code; otherwise exit code 0 returns normally, even with a version marker; a non-zero exit code gives the Java-version error if either version marker is present, and the generic bad-exit error if neither is; a `ValueError` is raised exactly for the Penn warning or for a non-zero exit code with neither version marker |
| `Converter.ClassifyFollowsRules` | clearnlp/converter.py:80-92 | the classifier is the first-match reading of an ordered rule table: the Penn warning on any exit code, then the Oracle marker, the IBM marker and the catch-all, each on a non-zero exit code only |

## Left out

- Starting the Java process, waiting for it and reading its pipes (`subprocess.Popen`, `wait`, the `stderr`/`stdout` reads). The process is the `Tool` parameter. It sees only the command line and the input text, not the rest of the file system.
- A launcher that cannot be started: `subprocess.Popen` raises (for instance when `java` is not on the path) before any file is read. The model has no such outcome; every run reaches the read of the `.dep` file.
- Output left by an earlier run: when this run writes no `.dep` file but an older one exists at that path, `convert_file` returns the old contents without an error. `Tool` depends only on the command and the input text, so the model does not tell a fresh file from a stale one, and it has no file-system history.
- Writing `tmp.parse` and opening the `.dep` file. Only the text written and the path read are modelled. A file-not-found on the `.dep` file is the one I/O failure modelled.
- The `debug` printing in `convert_file`: diagnostic output with no effect on the result.
- `os.path.abspath(os.path.dirname(__file__))`: the install directory is a constructor argument.
- `TemporaryTextFile`: dead code that refers to undefined names.
- The Java converter's algorithm and the CoNLL lines it produces.
- The race on the shared scratch file when two conversions run at once. This is a concurrency hazard; the model is sequential.
- The exception classes. `JavaRuntimeVersionError` is an `EnvironmentError` subclass and the other two errors are `ValueError`s. They appear only as `Outcome` values with their messages.
- CommandRoundTrip: the entries are recovered from the `-cp` argument only for a non-empty classpath with no `:` in any entry. An empty classpath gives `''`, which splits into `[""]`, and an entry holding `:` splits into several. `Command` still states the exact argument in those cases.
- PyStr.Split: requires a non-empty separator, where Python raises `ValueError` for an empty one. The adapter only splits on `'\n\n'` and builds the classpath with `':'`.
- Text encoding: files are UTF-8 text and strings are sequences of code points. No decoding errors are modelled.
