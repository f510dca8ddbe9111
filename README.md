# File-name logic of three directory batch scripts

This project models three small file-maintenance scripts for geospatial
deliverables, and proves properties of the model in Dafny:

- **Batch renamer** (`Files_renaming.py`). `rename_file` splits a file name
  into base and extension and splits the base on `_`. A name with fewer than
  three tokens is kept. Any other name is rebuilt as
  `Amite_{t0}_{t1}_Max{t2}{ext}`. `process_folder` walks one listing snapshot
  of a folder and renames, in place, each entry whose new name differs.
  `main` does this for every configured folder.
- **GRIB2 converter** (`convertgrib.py`). It selects the listed names that end
  in `.grib2`. For each one it derives `<base>.nc` in the same directory. An
  input the raster library cannot open is skipped; every other input is copied
  to its output path.
- **Inventory builder** (`FilenametoExcel.py`). It keeps the regular files
  whose names do not end in `.lock`. It then builds three columns: `Sl_No`
  (1..N), `Types` (each file's extension) and `Filenames`.

Modules:

- `PathNames` holds the name-level string operations the scripts use:
  `str.endswith` (converter and inventory builder), `os.path.splitext` on a
  bare name (all three) and `str.split` on one character (renamer only).
  `Join` models no call of the scripts; it is there only to state that
  splitting loses nothing (`JoinSplit`, `SplitJoin`).
- `FileSystem` represents a directory as a `Folder` object whose set of
  entries `os.rename` and file creation change in place.
- `Renaming`, `Conversion` and `Inventory` follow the three scripts.

The order of `os.listdir` is platform-dependent, so a listing is an input
sequence that enumerates the folder's entries. `os.path.isfile`,
`os.path.exists` and `os.path.isdir` are data: `DirEntry.isFile` and
`Folder.kind`. Whether the raster library opens an input is a predicate
`opens` passed to the converter.

The rename rule is **not idempotent**: re-parsing a renamed name treats the
prefix `Amite` as the first token. `RenameTwice` gives the result of a second
application, and `RenameExample` shows that applying the rule to
`Amite_202309_NOAA_Maxprecip.tif` gives `Amite_Amite_202309_MaxNOAA.tif`.
The rule does have fixed points: when every token is `Amite`, the name
`Amite_Amite_Amite_MaxAmite` plus an extension is left as it is
(`RenameFixedPoint`). A failing `os.rename` is not caught and ends the run.

## Model

| member | source | states |
|---|---|---|
| `PathNames.LastIndex` | Files_renaming.py:5 | the index of the last occurrence of a character, or -1; no later position holds it |
| `PathNames.SplitExt` | Files_renaming.py:5 | base + ext is the name; ext is "" (and every dot of the name is preceded only by dots) or starts at the last dot and has a non-dot character before it |
| `PathNames.SplitExtUnique` | Files_renaming.py:5 | every (base, ext) meeting those conditions is the split, so the split is determined by them |
| `PathNames.Split` | Files_renaming.py:8 | `str.split('_')` gives at least one token, and no token holds the separator |
| `PathNames.JoinSplit` | Files_renaming.py:8 | joining the tokens with the separator gives the string back |
| `PathNames.SplitJoin` | Files_renaming.py:8 | splitting a join of separator-free tokens gives those tokens back |
| `PathNames.SplitLength` | Files_renaming.py:8-10 | the number of tokens is the number of separators plus one |
| `PathNames.SplitWithoutSep` | Files_renaming.py:8 | a string without the separator is a single token |
| `PathNames.SplitCons` | Files_renaming.py:8 | a separator-free prefix followed by the separator is the first token |
| `PathNames.SplitHead` | Files_renaming.py:13 | the first token of a + t is a when t is empty or starts with the separator |
| `Renaming.RenameFile` | Files_renaming.py:3-20 | the new name always ends with the old name's extension |
| `Renaming.RenameKeepsShortNames` | Files_renaming.py:8-11 | a base with fewer than two underscores (fewer than three tokens) leaves the name unchanged |
| `Renaming.RenameTemplate` | Files_renaming.py:13-18 | a base t0_t1_t2 followed by nothing or by further `_` tokens gives exactly `Amite_t0_t1_Maxt2` + the extension |
| `Renaming.RenameThreeTokens` | Files_renaming.py:13-18 | the name t0_t1_t2 + ext, with a proper extension, becomes `Amite_t0_t1_Maxt2` + ext |
| `Renaming.RenameIgnoresTail` | Files_renaming.py:13-18 | names that agree on the first three tokens and the extension get the same new name: later tokens are dropped |
| `Renaming.RenameOfRenamed` | Files_renaming.py:8-18 | applying the rule to a name it produced (with an extension) gives `Amite_Amite_t0_Maxt1` + ext |
| `Renaming.RenameTwice` | Files_renaming.py:8-18 | for every name with three or more tokens and an extension, the rule applied twice gives `Amite_Amite_t0_Maxt1` + ext |
| `Renaming.RenameExample` | Files_renaming.py:3-20 | `202309_NOAA_precip.tif` becomes `Amite_202309_NOAA_Maxprecip.tif`, which becomes `Amite_Amite_202309_MaxNOAA.tif`, which differs from it: the rule is not idempotent |
| `Renaming.RenameFixedPoint` | Files_renaming.py:8-18 | with every token `Amite`, `Amite_Amite_Amite_MaxAmite` + ext is a fixed point of the rule |
| `Renaming.KeepExample` | Files_renaming.py:8-11 | `justonename.tif` is kept unchanged |
| `Renaming.Moves` | Files_renaming.py:29-31 | the renames asked for are, in listing order, one per listed name whose new name differs, each to its new name, and no others |
| `Renaming.RenamePass` | Files_renaming.py:29-35 | the loop over a listing snapshot performs no more renames than there are listed names, and only renames that change the name |
| `Renaming.FolderPass` | Files_renaming.py:22-35 | a path that is not an existing directory is left alone with nothing renamed; over a directory, a pass that runs to the end performs exactly the renames `Moves` asks for |
| `Renaming.PassLog` | Files_renaming.py:29-35 | a pass that completes performs exactly those renames in listing order; one cut short by a failing rename has done a proper prefix of them |
| `Renaming.PassLogFrom` | Files_renaming.py:29-34 | every rename performed moves a snapshot name to its computed name |
| `Renaming.PassEntries` | Files_renaming.py:29-34 | over a snapshot of the folder, the entries afterwards are the old entries minus the renamed names plus their new names; every other entry stays |
| `Renaming.PassVisitsOnce` | Files_renaming.py:29 | no name is renamed twice, and a name created during the run is never renamed in that run |
| `Renaming.ProcessFolder` | Files_renaming.py:22-35 | a path that is missing or not a directory changes nothing and renames nothing; otherwise the folder's entries, the renames reported and whether the loop finished are those of the pass over the snapshot |
| `Renaming.RenameFolders` | Files_renaming.py:37-43 | folders are processed in order; all before the returned index completed their pass, the one at it (if any) was cut short by a failing rename, and the rest are untouched |
| `FileSystem.Folder.Rename` | Files_renaming.py:34 | renaming succeeds exactly when the source is present and the target absent, moving the source name to the target name; otherwise nothing changes |
| `FileSystem.Folder.Create` | convertgrib.py:25 | creating a file adds its name to the folder |
| `Conversion.SelectGrib` | convertgrib.py:8 | a listed name is selected exactly when it ends with `.grib2` (case-sensitive) |
| `Conversion.SelectGribAppend` | convertgrib.py:8 | selection keeps listing order |
| `Conversion.GribPaths` | convertgrib.py:8 | every input path lies in the scanned directory and names a file ending in `.grib2` (that these are exactly the listed such names is `GribPathsMember`) |
| `Conversion.GribPathsMember` | convertgrib.py:8 | the inputs are exactly the selected names joined to the scanned directory |
| `Conversion.OutputName` | convertgrib.py:13 | the output name ends with `.nc` |
| `Conversion.OutputPath` | convertgrib.py:13 | the output is in the input's directory and is never the input itself |
| `Conversion.OutputOfGrib` | convertgrib.py:13 | when the stem holds a non-dot character, `stem.grib2` becomes `stem.nc` |
| `Conversion.OutputOfDotStem` | convertgrib.py:13 | when the stem is dots only (`.grib2`), the whole name is kept and `.nc` appended |
| `Conversion.OutputInjective` | convertgrib.py:13 | distinct selected names with ordinary stems have distinct outputs |
| `Conversion.OutputCollision` | convertgrib.py:13-25 | `.grib2` and `.grib2.grib2` (with any dot-only prefix) share an output name, so the later copy overwrites the earlier |
| `Conversion.Created` | convertgrib.py:13-25 | every file the loop creates has a name ending in `.nc` |
| `Conversion.CreatedMember` | convertgrib.py:19-25 | a file is created exactly when it is the output name of an input that opens |
| `Conversion.SkippedInputNoOutput` | convertgrib.py:19-21 | an input that fails to open leaves its output name uncreated, unless an input that opens shares that name |
| `Conversion.SelectionExample` | convertgrib.py:8-13 | of `a.grib2`, `b.grib2`, `c.txt` exactly the first two are inputs, in order, with outputs `a.nc` and `b.nc` |
| `Conversion.ConvertOne` | convertgrib.py:13-31 | one pass of the loop: an input that fails to open is reported skipped and creates nothing; one that opens is reported copied to its derived output path, which the folder then holds |
| `Conversion.ConvertAll` | convertgrib.py:11-31 | one report per input in order: copied to its derived output path when it opens, skipped otherwise; the folder gains exactly the outputs of the inputs that opened |
| `Inventory.KeptNames` | FilenametoExcel.py:8 | no kept name ends in `.lock`, and there are no more rows than listed entries |
| `Inventory.KeptNamesAppend` | FilenametoExcel.py:8 | the filter keeps listing order |
| `Inventory.KeptNamesMember` | FilenametoExcel.py:8 | a name is kept exactly when some listed entry with that name is a regular file not ending in `.lock` |
| `Inventory.Numbering` | FilenametoExcel.py:16 | the Sl_No column is 1..n |
| `Inventory.Extensions` | FilenametoExcel.py:11 | one type per name, and each name is its base followed by its type |
| `Inventory.BuildTable` | FilenametoExcel.py:8-19 | Filenames is the kept names in listing order; all three columns have that length; row i has Sl_No i+1 and the extension of its file name |
| `Inventory.TablePath` | FilenametoExcel.py:22 | the table is written into the scanned directory, under a name the builder's own filter keeps when it is listed as a regular file |
| `Inventory.RowCount` | FilenametoExcel.py:8-16 | the number of rows is the number of regular, non-lock files listed |
| `Inventory.EarlierOutputListed` | FilenametoExcel.py:8-22 | the table a previous run wrote into the same directory, listed as a regular file, appears in the next inventory |
| `Inventory.ReportExample` | FilenametoExcel.py:11-19 | a listing holding only the file `report.tif` gives the single row (1, `.tif`, `report.tif`) |

## Left out

- The raster library calls (`gdal.Open`, `GetDriverByName`, `CreateCopy` and the release of the handles) are foreign code. Opening is the predicate `opens`. A copy of an input that opened is taken to create its output: the script does not check the result of `CreateCopy` and reports completion either way.
- Building the pandas DataFrame and `to_excel` are left out. The spreadsheet is modelled as its three columns; the file format and the overwriting of an existing `file_list.xlsx` are not modelled.
- The directory listing is an input sequence, because `os.listdir` order depends on the platform. A missing directory makes `os.listdir` raise in the converter and the inventory builder before anything happens. Those two components therefore require an existing directory and do not model that failure.
- `os.path.join` is modelled by the `Path` datatype. Separators and Windows drive paths are not modelled, and names are taken to contain no separator.
- `FileSystem.Folder.Rename` models only two failures, a missing source and an already existing target, and treats both as raising (Windows behaviour, which fits the scripts' drive paths). Permission errors are not modelled. The POSIX behaviour of silently replacing an existing target is not modelled either.
- `FileSystem.CanRename` compares names exactly, while Windows file systems ignore case. When the folder holds `a_b_c.tif` and `amite_a_b_maxc.tif`, Windows refuses the rename of `a_b_c.tif` to `Amite_a_b_Maxc.tif`; the model lets it succeed and keeps both names. Case folding of file names is not modelled.
- `Renaming.RenameFolders` requires the folder objects to be distinct. The script's single hard-coded folder meets this. A folder listed twice would be listed again when its turn came, which the per-folder listings do not capture.
- The hard-coded directory paths are left out as configuration; the directory is a parameter. The `print` messages are left out as text. The renames and reports that they announce are modelled (`Move`, `Report`).
- `Renaming.RenamePass`, `Moves` and the lemmas about them take the rule as a parameter, and `FolderPass` and `ProcessFolder` instantiate it with `RenameFile`. The folder lemmas hold for any rule.
