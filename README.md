# Image converter: verified model of its core

The image converter is a desktop tool. The user picks image files, a target format and an output directory. It then converts every picked file with an imaging library (Pillow). This project models the logic inside the tool's window code, `converter_gui.py`:

- **The managed file list** (`ConverterApp.App`). The window keeps `files`, a list of paths, and a list box that shows them. "Add Files" appends the picked paths that are not listed yet. "Remove Selected" removes the selected rows. "Clear All" empties both. The class invariant `Valid()` says two things: no path is listed twice, and the list box shows exactly `files`.
- **Converting one file** (`Conversion.ConvertImage`). It opens the image and derives the output path: the output directory, then the input's base name without its final extension, then `.` and the lower-cased format. An RGBA image is flattened to RGB when the upper-cased format is `JPEG` or `JPG`. Then the image is saved. An exception at any step becomes a failure that carries the exception's text.
- **The batch** (`ConverterApp.App.ConvertImages`). With no files it only warns. Otherwise it converts every listed file in list order and reports one line per file, whether that file succeeded or failed.

Path handling follows Python's `posixpath`. `Paths.Basename` splits at the last `/`. `Paths.SplitExt` splits at the last `.` of the final component, unless every character before that dot in the component is a dot. `Paths.Join` adds one `/` only when the directory does not already end in one.

The imaging library is an oracle: a `Conversion.Library` value whose `open`, `convert` and `save` fields are functions. Each returns `Done(value)` or `Raised(message)`.

The specifications behind the list operations live in module `FileLists`:
- `Dedup` keeps each path at its first occurrence.
- `Drop` removes the entries at the listed positions.
- `RemoveValues` removes every occurrence of the listed values.
- `RemoveFirst` is Python's `list.remove` on a value that is present. The source and `ConverterApp.App.RemoveFiles` both test membership before calling it, so the absent case (where Python raises) never arises; the model returns the list unchanged there.

Files: `paths.dfy`, `conversion.dfy`, `file_list.dfy`, `converter_app.dfy`.

## Model

| member | source | states |
|---|---|---|
| Paths.Basename | converter_gui.py:17 | the result is the longest suffix of the path that has no `/`: it holds no separator, it ends the path, and the character before it, if any, is `/` |
| Paths.SplitExt | converter_gui.py:17 | root + extension is the input. A non-empty extension starts at a dot of the final component that has a non-dot character before it in that component, and it holds no further dot. An empty extension means no dot of the final component can start one, so leading dots (`.profile`) are never an extension |
| Paths.Join | converter_gui.py:18 | the result ends with the second component. An absolute second component replaces the directory. An empty directory gives the component alone. Otherwise the directory comes first, followed by a `/` only when it does not already end in one, so the separator is never doubled |
| Paths.JoinedBasename | converter_gui.py:18 | joining a name that holds no `/` makes that name the base name of the result |
| Paths.UpperMatchesIffLowerMatches | converter_gui.py:19 | upper-casing a string gives an upper-case word exactly when lower-casing it gives that word in lower case |
| Conversion.StemIsBasenameWithoutFinalExtension | converter_gui.py:17 | the stem holds no `/`. It is the input's base name minus an extension that is empty or a single dot-led suffix with no further dot |
| Conversion.OutputPathInOutputDir | converter_gui.py:18 | the output path is the output directory, then a `/` only if the directory does not already end in one (never a doubled `/`), then the output name. An empty directory gives the name alone |
| Conversion.OutputPathEndsWithFormat | converter_gui.py:18 | the output path ends with `.` followed by the lower-cased format |
| Conversion.OutputBasenameIsOutputName | converter_gui.py:17-18 | for a format without `/`, the base name of the output path is exactly stem + `.` + lower(format) |
| Conversion.SameBasenameSameOutput | converter_gui.py:17-18 | two inputs with the same base name in different directories are written to the same output file |
| Conversion.FlattenExactlyForRgbaJpeg | converter_gui.py:19 | flattening happens if and only if the mode is `RGBA` and the format is `jpeg` or `jpg` in any letter case |
| Conversion.FlattenAmongSupportedFormats | converter_gui.py:11-19 | among the ten offered formats, an RGBA image is flattened exactly for `JPEG` and `JPG` |
| Conversion.FlattenedOutputIsJpeg | converter_gui.py:18-19 | a flattened image is always written to a file ending in `.jpeg` or `.jpg` |
| Conversion.ImageToSave | converter_gui.py:19-20 | when flattening is not required, the image handed to save is the decoded image, unchanged |
| Conversion.JpegNeverSavedAsRgba | converter_gui.py:19-21 | if the library's RGB conversion yields an RGB image of the same size, then for a JPEG-family format the image handed to save is never RGBA and keeps the decoded size |
| Conversion.ConvertImage | converter_gui.py:14-24 | yields exactly one of output path or failure. A success names the derived output path. A failure names the input. A failed open, a failed RGB conversion or a failed save each gives a failure carrying that error's text. Success holds if and only if open, the optional flattening and save all complete |
| Conversion.UnwritableDirectoryFailsEveryFile | converter_gui.py:21-24 | when every save into the output directory raises, every input yields a failure naming that input |
| FileLists.Dedup | converter_gui.py:92-94 | the result holds exactly the input's paths and holds none twice |
| FileLists.DedupOfDistinct | converter_gui.py:92-94 | a list without duplicates is unchanged by `Dedup` |
| FileLists.DedupKeepsDistinctPrefix | converter_gui.py:90-95 | adding picked paths keeps the existing entries first, in their order |
| FileLists.DedupFollowsFirstOccurrences | converter_gui.py:92-94 | the kept paths appear in the order of their first occurrences, so new paths follow the dialog's order |
| FileLists.Drop | converter_gui.py:103-104 | deleting rows never lengthens the list or introduces a path |
| FileLists.DropRemovesExactlyListed | converter_gui.py:97-104 | in a list without duplicates, an entry survives if and only if its row was not selected |
| FileLists.DropKeepsDistinct | converter_gui.py:97-104 | deleting rows from a list without duplicates leaves none |
| FileLists.DropDescendingStep | converter_gui.py:103-104 | deleting from the bottom up keeps each selected row index valid and in place, and each deletion removes exactly that row |
| FileLists.RemoveValues | converter_gui.py:100-102 | an entry is kept if and only if it was present and not among the values to remove |
| FileLists.RemoveFirst | converter_gui.py:102 | on a present value, `list.remove` drops exactly its first occurrence; the call is guarded by a membership test in both the source and the model, and on an absent value the model returns the list unchanged |
| FileLists.RemoveFirstExtendsRemoveValues | converter_gui.py:100-102 | on a list without duplicates, removing the first occurrence of one more value equals removing all of its occurrences |
| FileLists.SelectedValuesAreSelectedPositions | converter_gui.py:97-104 | on a list without duplicates, removing the selected paths by value equals deleting the selected rows, and the result has no duplicates |
| FileLists.RemoveByValueMatchesRowIff | converter_gui.py:97-104 | for any list and any selected row, removing that row's path by value and deleting the row give the same list if and only if every row from the path's first occurrence down to the selected row holds that path; so they agree whenever the path is not listed above the row, and differ once another path sits between an earlier copy and the row |
| FileLists.DuplicatesBreakLockstep | converter_gui.py:97-104 | for `a.png, b.png, a.png` with row 2 selected, `list.remove` drops row 0 while the list box drops row 2, so the two lists differ |
| ConverterApp.App.constructor | converter_gui.py:33 | the window starts with an empty, valid file list |
| ConverterApp.App.AddFiles | converter_gui.py:90-95 | afterwards `files` is `Dedup(old files + picked)`, the list box equals `files`, and no path is listed twice |
| ConverterApp.App.RemoveSelected | converter_gui.py:97-104 | given an ascending selection of valid rows, `files` loses exactly the selected rows, and the list box still equals `files` with no duplicates |
| ConverterApp.App.RemoveFiles | converter_gui.py:99-102 | the by-value removal loop leaves `files` without any of the selected paths |
| ConverterApp.App.DeleteRows | converter_gui.py:103-104 | the bottom-up deletion loop leaves the list box without exactly the selected rows |
| ConverterApp.App.ClearAll | converter_gui.py:106-108 | both the list and the list box are empty afterwards, whatever they held before, so a second call changes nothing |
| ConverterApp.App.ConvertImages | converter_gui.py:122-137 | warns if and only if there are no files. Otherwise there is one line per file, in list order, each the report of converting that file, so a failure does not stop later files. A failure line names its file. For a format without `/`, a success line names stem + `.` + lower(format) |

## Left out

- The Tkinter window, its layout, the file and directory dialogs, the message box and the context menu are not modelled. The picked files and the list box selection are method inputs. The warning is a returned flag. The results box is the returned list of lines.
- Choosing the output directory is not modelled. Its default, `~/Downloads`, comes from the environment, so the constructor takes the directory as a parameter.
- Pillow's `open`, `convert` and `save` and the HEIF opener registration are foreign code. They are the oracle fields of `Conversion.Library`. The image is reduced to its mode and size.
- The library functions are pure, so the file system's state is not modelled. An output written earlier in the batch cannot affect a later conversion. `Conversion.SameBasenameSameOutput` records that two inputs can still target the same file.
- The source tells a success from a failure by checking whether the returned string names an existing file (`os.path.exists`). The model uses the `ConversionResult` datatype instead. So an error text that happens to name an existing file is not reported as a success here.
- Timing and the two-decimal duration label are not modelled, because they involve the clock and floating point.
- Paths.Lower and Paths.Upper change ASCII letters only. Python's `str.lower` and `str.upper` also map other Unicode letters.
- ConverterApp.App.RemoveSelected requires an ascending selection of valid rows. That is what the list box's `curselection` returns; its rows are not re-read as Tk strings.
- ConverterApp.App.ClearAll: idempotence is not a separate lemma. It follows from the postcondition, which does not depend on the previous state.
- The batch loop takes the format as a parameter. The format selector is editable, so any string can reach it. The code accepts an empty list and only warns, and the model follows the code.
