# Robot-controller file handlers of the Yaskawa INFORM language server

This Dafny project models the core of the language server for Yaskawa robot
controller files: the line-prefix sectioners that split each file kind into
named sections, the address codecs that map parameter numbers, I/O logical
numbers and variable numbers to lines and comma fields, the diagnostics built
on them (duplicate I/O and variable names with their quick fix, the timer and
unknown-command checks of job files, the PSC-versus-parameter comparison), and
the message translation with its fallback chain and `{n}` placeholders.

The modules follow the source files:

| module | models |
|---|---|
| `Protocol` | positions, ranges, severities, diagnostics and locations of the editor protocol |
| `OrderedMaps` | a JavaScript `Map`: entries plus insertion order, where setting an existing key keeps its place |
| `Util` | `Util.ts`: section-name extraction, comma fields, severity names, range containment |
| `SectionedDocuments` | `SectionedDocument.ts`: the section map and the line-to-section lookup |
| `Sectioner` | the `updateSection` loop of every handler; one state machine whose per-line decision (`Classify`) holds each file kind's header grammar |
| `RobotControllerFiles` | `RobotControllerFile.ts`: the cached sectioned document, the text-line reads and the folding ranges |
| `ParameterFiles` | `ParameterFile.ts` (ALL.PRM) |
| `IoNameDatFiles` | `IoNameDatFile.ts` (IONAME.DAT) |
| `VarNameDatFiles` | `VarNameDatFile.ts` (VARNAME.DAT) |
| `VarDatFiles` | `VarDatFile.ts` (VAR.DAT) |
| `IoMNameDatFiles` | `IoMNameDatFile.ts` (IOMNAME.DAT) |
| `JbiPatterns` | the regular expressions of `JbiFile.ts`, each written as a scanner |
| `JbiFiles` | `JbiFile.ts` (job files) |
| `PscFiles` | `PscFile.ts` |
| `Translations` | `Translation.ts` |

The code keeps its own form. Loops are methods with invariants, proved
against a specification function:
- `BuildSections`
- `OnFoldingRanges`
- the table builders and counting walks of the IONAME.DAT and VARNAME.DAT handlers
- the parameter-value scan
- the `exec` loops of job files
- the PSC `forEach`

Handlers whose fields the source caches are classes. Their methods state the
new state through the same functions.

What the editor and the other files supply is passed in as parameters:
- file text is `Option<seq<string>>`, with `None` meaning the file cannot be read;
- the translation tables and the locale;
- the alias options and the other handler's name counts;
- the `RobotController` lookups, as a record of functions;
- `Inform.isCommandStr`;
- `Util.isPositionInMatch`, as `Controller.positionInMatch`.

## Model

| member | source | states |
|---|---|---|
| Util.ExtractSectionName | server/src/Util.ts:20-28 | the name is the maximal whitespace-free run right after the leading slashes; it never contains whitespace and never starts with `/`; it is empty exactly when the slashes are followed by whitespace or the end of the line |
| Util.RangeAtIndex | server/src/Util.ts:38-48 | defined exactly when comma field k exists; the range is on line 0, lies within the text, covers no comma, and ends at a comma or at the end of the text |
| Util.RangeAtIndexSpec | server/src/Util.ts:38-48 | field k exists iff the text has at least k commas; the range starts after exactly k commas (right after a comma, or at column 0 for k = 0) |
| Util.FieldSpanIsSplitPiece | server/src/Util.ts:38-48 | the text under field k's range is the k-th piece of `split(",")`, and the field exists iff there are more than k pieces |
| Util.RangeThenIndex | server/src/Util.ts:58-65 | every column from the start to the end (inclusive) of field k's range has comma index k: `getIndexAtPosition` inverts `getRangeAtIndex` |
| Util.IndexThenRange | server/src/Util.ts:58-65 | for any column within the text, the field named by its comma index exists and its range contains the column |
| Util.StringToSeverity | server/src/Util.ts:76-89 | "hint", "information", "warning" and "error" give their severity, and each severity comes only from its own name; "none" and every other string give none |
| Util.IsPositionInRange | server/src/Util.ts:91-109 | true exactly when start <= position < end in (line, character) order: inclusive at the start, exclusive at the end, and every position on a line strictly between them is inside |
| OrderedMaps.PutThenGet | server/src/SectionedDocument.ts:18-24 | after setting a key, getting it returns the new value; other keys read as before; the existing keys keep their order |
| SectionedDocuments.SectionedDocument.constructor | server/src/SectionedDocument.ts:14-16 | a new document has an empty section map |
| SectionedDocuments.SectionedDocument.GetSection | server/src/SectionedDocument.ts:18-20 | a section exactly for a recorded name, namely the one recorded |
| SectionedDocuments.SectionedDocument.SetSectionRange | server/src/SectionedDocument.ts:22-24 | the map gains or replaces only that entry; an existing name keeps its place in the iteration order and a new name goes last |
| SectionedDocuments.SectionedDocument.GetSectionNameFromLine | server/src/SectionedDocument.ts:26-33 | the method's search loop returns what `NameAtLine` specifies for the current map |
| SectionedDocuments.NameAtLine | server/src/SectionedDocument.ts:26-33 | a returned name is recorded and its contents range holds the line |
| SectionedDocuments.NameAtLineSpec | server/src/SectionedDocument.ts:26-33 | no name exactly when no contents range holds the line; otherwise the earliest-inserted name whose contents hold it |
| Sectioner.BuildSections | server/src/RobotControllerFile.ts:68-115 | the sectioning loop fills a new valid document whose map is `Sections(kind, lines)` |
| Sectioner.ReadLine | server/src/RobotControllerFile.ts:85-105 | one line moves the loop variables and the document as `Step` does: a header commits the open section when it is named and non-empty and opens the next, a data line extends the contents |
| Sectioner.CommitKeepsInv | server/src/RobotControllerFile.ts:92-98 | committing the open section keeps all recorded sections well formed and their contents disjoint |
| Sectioner.StepKeepsInv | server/src/RobotControllerFile.ts:84-106 | one line of any grammar preserves the loop invariant: the open contents range holds no header line, and every committed section is well formed and disjoint from the others |
| Sectioner.RunKeepsInv | server/src/RobotControllerFile.ts:84-106 | the loop invariant holds after every prefix of the file |
| Sectioner.FlushKeepsInv | server/src/RobotControllerFile.ts:107-112 | the final commit after the last line keeps the sections well formed and disjoint |
| Sectioner.SectionsWellFormed | server/src/RobotControllerFile.ts:84-112 | for every file kind, every recorded section was opened by a header of its own name above its contents; the contents are non-empty, inside the file, and hold no line that opens or restarts a section; contents of different names never overlap (the same shape holds for the ALL.PRM grammar, where an empty name or `CRC` restarts the contents, and the IONAME.DAT grammar, where an empty name only moves the header end) |
| RobotControllerFiles.GenericSections | server/src/RobotControllerFile.ts:84-112 | with the base grammar, every recorded name is a whole `/` line; its contents start on the next line, are non-empty, hold no `/` line, and end at the next `/` line or at the end of the file; the contents are disjoint |
| RobotControllerFiles.GenericHeaderRecorded | server/src/RobotControllerFile.ts:86-112 | a `/` line followed by a line that is not a header is recorded as a section |
| RobotControllerFiles.TextLine | server/src/Workspace.ts:86-104 | the line exists exactly when the file is readable and the number is in range, and it is that line |
| RobotControllerFiles.NonEmptyLine | server/src/Workspace.ts:86-104 | the line as the handlers test it (`if (!lineText)`): present exactly when it exists and is not empty |
| RobotControllerFiles.DocumentSections | server/src/RobotControllerFile.ts:73-80 | no sections exactly when the file cannot be read; otherwise the sectioner's map |
| RobotControllerFiles.RobotControllerFile.constructor | server/src/RobotControllerFile.ts:39-53 | a handler keeps its file kind and text and has no cached document |
| RobotControllerFiles.RobotControllerFile.UpdateSection | server/src/RobotControllerFile.ts:68-115 | a cached document is returned unchanged; without text the result is null and nothing is cached; otherwise a new document holding `Sections(kind, lines)` is built and cached |
| RobotControllerFiles.RobotControllerFile.OnFoldingRanges | server/src/RobotControllerFile.ts:132-146 | null exactly when the file cannot be read; otherwise `Folds` of the sections, built by a loop over the map; the ALL.PRM and IOMNAME.DAT overrides are the same walk over their own sections |
| RobotControllerFiles.FoldsWithinFile | server/src/RobotControllerFile.ts:132-146 | one folding range per section in map order; each starts on the line that opened its section and ends on the last contents line, inside the file |
| Translations.IsLocaleSupported | server/src/Translation.ts:32-34 | true exactly for "en" and "ja" |
| Translations.Lookup | server/src/Translation.ts:40-48 | a text exactly when the locale's table exists and has the key (`hasTranslation`), and it is the stored text |
| Translations.TranslateFallback | server/src/Translation.ts:72-85 | the locale's text formatted; failing that, the English text formatted; failing both, the key itself, unformatted. Both formatted texts use the corrected `Format` (see Findings) |
| Translations.TranslateAsWritten | server/src/Translation.ts:72-85 | `translate` as written, formatting with `FormatAsWritten`; the key itself when neither table has it |
| Translations.FormatsAgree | server/src/Translation.ts:58-66 | on a text whose placeholders each have one digit, `format` as written and as intended give the same text |
| Translations.TranslatesAgree | server/src/Translation.ts:58-85 | when every stored text has single-digit placeholders, `translate` as written gives exactly the intended message |
| Translations.TranslatePlain | server/src/Translation.ts:72-85 | a found text with no placeholder is returned as stored, whatever the values |
| Translations.PlaceholderLen | server/src/Translation.ts:61 | a match of `{([0-9]+)}` at the start of the text: either none, or a `{`, at least one digit and a `}` |
| Translations.FormatPlaceholder | server/src/Translation.ts:59-70 | `{k}` becomes value k when k is below the number of values and stays as written otherwise; the rest of the text is formatted the same way |
| Translations.FormatStep | server/src/Translation.ts:59-70 | for any placeholder at the start of the text, the same rule applies with the index being its digits' value |
| Translations.FormatWithoutPlaceholder | server/src/Translation.ts:61-69 | a text without `{digits}` passes through unchanged |
| Translations.FormatWithoutValues | server/src/Translation.ts:59-70 | with no values, every text passes through unchanged |
| Translations.MergedSpec | server/src/Translation.ts:50-57 | every key the merge adds comes from a string-valued entry and carries that entry's text; every string-valued entry's key ends up in the table |
| Translations.Translator.constructor | server/src/Translation.ts:6 | the table of tables starts empty |
| Translations.Translator.UpdateTable | server/src/Translation.ts:50-57 | the locale's table becomes the merge of its entries; a locale without a table is left alone (the `?.` call) |
| Translations.FormatReadsFirstDigit | server/src/Translation.ts:62 | with two values, the code as written turns `{10}` into the second value, while the intended formatting keeps `{10}` |
| ParameterFiles.ParameterFile.constructor | server/src/ParameterFile.ts:28-31 | a handler over the text, with no value table yet |
| ParameterFiles.ParameterFile.UpdateParameterValue | server/src/ParameterFile.ts:133-170 | the result is `ValueTable` of the text and is what the cache now holds (nothing is cached for a missing or empty text); a cached table stays cached |
| ParameterFiles.ValueTable | server/src/ParameterFile.ts:138-142 | no table exactly when the text is missing or has no lines |
| ParameterFiles.ScanLine | server/src/ParameterFile.ts:149-164 | one iteration of the value loop moves the section name, start line and table as `ValueStep` specifies |
| ParameterFiles.SetValues | server/src/ParameterFile.ts:159-163 | the `forEach` writes field j under `section + (base + j)` with the field's number, in order |
| ParameterFiles.ValuesOfLine | server/src/ParameterFile.ts:148-164 | after data line i, field j is stored under the section name followed by `(i - startLine) * 10 + j`, with the number that `+` gives for the field |
| ParameterFiles.ValuesTrackSections | server/src/ParameterFile.ts:148-157 | the value loop's section name and start line are the sectioner's current name and contents start: one past the latest `/` line, including empty-name and `CRC` lines |
| ParameterFiles.ToNumberOfDecimal | server/src/ParameterFile.ts:162 | `+` on a decimal integer with surrounding blanks gives that integer |
| ParameterFiles.ToNumberOfBlank | server/src/ParameterFile.ts:162 | `+` on an empty or blank field gives 0 |
| ParameterFiles.ParameterExistIsLineInSection | server/src/ParameterFile.ts:85-104 | a parameter exists exactly when its number is non-negative and its line `contents.start + n / 10` lies inside its section |
| ParameterFiles.ExistingParameterInSection | server/src/ParameterFile.ts:85-104 | an existing parameter's line is a data line of its own section, within the file |
| ParameterFiles.GetParameterRangeSpec | server/src/ParameterFile.ts:106-131 | a range exactly when the section, a non-empty line `contents.start + n / 10` and its field `n % 10` exist; the range covers exactly that `split(",")` piece; there is no check against the section end |
| ParameterFiles.GetParameterValue | server/src/ParameterFile.ts:181-195 | "file not found" exactly when the text is missing or empty; "out of range" exactly when a table exists but the parameter does not; an existing parameter always gets a value, which is the finite number stored under its key, and 0 when nothing or NaN is stored; so a non-zero result is a stored finite number |
| ParameterFiles.Hover | server/src/ParameterFile.ts:198-230 | an answer exactly on a non-empty line inside a section |
| ParameterFiles.HoverThenRange | server/src/ParameterFile.ts:198-230 | the hover text is `<section> <offset * 10 + comma index>`; for a comma index below 10, `getParameterRange` of that number covers the cursor |
| IoNameDatFiles.BankTables | server/src/IoNameDatFile.ts:95-100 | the bank numbers of IN/OUT/EXIN/EXOUT and the reverse table of `getIoNameRange` invert each other; every bank is a multiple of 10000 below 40000 |
| IoNameDatFiles.IoNameDatFile.constructor | server/src/IoNameDatFile.ts:24-26 | a handler over the text, with no name table yet |
| IoNameDatFiles.IoNameDatFile.UpdateIoName | server/src/IoNameDatFile.ts:78-138 | the cached table is `IoNames` of the text (empty when the text is missing) |
| IoNameDatFiles.SetSections | server/src/IoNameDatFile.ts:102-137 | the walk over the sections builds the table `PutSections` specifies |
| IoNameDatFiles.SetSection | server/src/IoNameDatFile.ts:118-135 | the walk over one section's lines builds the table `PutLines` specifies |
| IoNameDatFiles.SetNames | server/src/IoNameDatFile.ts:125-133 | the walk over one line's fields builds the table `PutNames` specifies |
| IoNameDatFiles.IoNamesSound | server/src/IoNameDatFile.ts:95-133 | every entry of the table is a non-empty field i of contents line L of an IN/OUT/EXIN/EXOUT section, stored under `bank + ((4L+i)/8 + 1) * 10 + (4L+i) % 8` |
| IoNameDatFiles.IoNamesComplete | server/src/IoNameDatFile.ts:95-133 | every non-empty field of such a section has an entry under that logical number |
| IoNameDatFiles.PutSectionsWf | server/src/IoNameDatFile.ts:102-137 | setting the sections keeps the table well formed: each logical number is listed once |
| IoNameDatFiles.PutLinesWf | server/src/IoNameDatFile.ts:118-135 | setting the lines of one section keeps the table well formed |
| IoNameDatFiles.PutNamesWf | server/src/IoNameDatFile.ts:125-133 | setting the names of one line keeps the table well formed |
| IoNameDatFiles.DecodeLogical | server/src/IoNameDatFile.ts:158-175 | the reverse arithmetic on a forward number gives back its bank, line offset and field |
| IoNameDatFiles.RangeOfNumber | server/src/IoNameDatFile.ts:146-188 | for a forward number, `getIoNameRange` gives field i of line `contents.start + L` when that field exists, and nothing otherwise |
| IoNameDatFiles.IoNameRoundTrip | server/src/IoNameDatFile.ts:127-183 | for a non-empty field, the range of its forward number is exactly that field's `split(",")` piece on its line |
| IoNameDatFiles.GetIoNameRangeSpec | server/src/IoNameDatFile.ts:146-188 | any range found lies on one line of the file, for a number of a known bank, and covers field `(x % 10) % 4` of that line |
| IoNameDatFiles.IoNameDatFile.GetIoName | server/src/IoNameDatFile.ts:140-144 | the entry of the table for the logical number, if any; afterwards the cache holds the table of the file's text |
| IoNameDatFiles.CountNames | server/src/IoNameDatFile.ts:204-213 | the counting loop adds one per table entry to each name |
| IoNameDatFiles.CountsSpec | server/src/IoNameDatFile.ts:194-216 | each name's count is the number of table entries holding it, and a name is counted exactly when some entry holds it |
| IoNameDatFiles.IoNameDatFile.GetIoNameCnt | server/src/IoNameDatFile.ts:194-216 | the counts of the table, which the cache now holds |
| IoNameDatFiles.NameCountTwo | server/src/IoNameDatFile.ts:288-305 | a name counts two or more exactly when two different entries hold it |
| IoNameDatFiles.Hover | server/src/IoNameDatFile.ts:219-252 | an answer exactly on a non-empty line inside a section |
| IoNameDatFiles.HoverThenRange | server/src/IoNameDatFile.ts:244-250 | the hover text is `<section> <offset * 4 + comma index + 1>`; on a field of an I/O bank, `getIoNameRange` of that field's logical number covers the cursor |
| IoNameDatFiles.AliasCounts | server/src/IoNameDatFile.ts:274-279 | the variable-name counts are used only when the variable-name alias option is on |
| IoNameDatFiles.ValidateResult | server/src/IoNameDatFile.ts:256-260 | null exactly when the I/O-name alias option is explicitly off |
| IoNameDatFiles.EntryDiagnosticIs | server/src/IoNameDatFile.ts:285-312 | an entry is reported exactly when its name occurs twice or more among the I/O names and counted variable names, does not start with `'`, and has a range; the report is an Information at that range with the I/O message when the name repeats among I/O names and the variable message otherwise |
| IoNameDatFiles.PushDiagnostics | server/src/IoNameDatFile.ts:284-313 | the loop over the table pushes each entry's diagnostic, in table order |
| IoNameDatFiles.EntryDiagnosticsSpec | server/src/IoNameDatFile.ts:284-313 | every pushed diagnostic comes from an entry's check, and every entry whose check reports is pushed |
| IoNameDatFiles.ValidateSpec | server/src/IoNameDatFile.ts:254-316 | every diagnostic reports a duplicated entry at its range with its message, and every duplicated entry that has a range is reported |
| IoNameDatFiles.EntriesSound | server/src/IoNameDatFile.ts:284-313 | over any well-formed table, every diagnostic of the entry walk reports a duplicated entry at its range with its message |
| IoNameDatFiles.EntriesComplete | server/src/IoNameDatFile.ts:284-313 | over any well-formed table, every duplicated entry whose range is found gets its diagnostic |
| IoNameDatFiles.ValidateIgnoresVarNames | server/src/IoNameDatFile.ts:274-279 | with the variable-name alias option not on, the other file's counts do not change the result |
| IoNameDatFiles.IoNameDatFile.Validate | server/src/IoNameDatFile.ts:254-316 | the result is `ValidateResult` of the text, the options and the other file's counts; unless the option is off, the cache now holds the table, and otherwise it is untouched |
| VarNameDatFiles.MatchRow | server/src/VarNameDatFile.ts:69 | a row matches `^([0-9]+)\s+[0-9]+,[0-9+]+,(.*)`: a digit number, then the prefix ending in a comma, then the name up to the end of the line or a line terminator |
| VarNameDatFiles.ParseRow | server/src/VarNameDatFile.ts:69-75 | a number and name exactly for a matching row |
| VarNameDatFiles.VarNameDatFile.constructor | server/src/VarNameDatFile.ts:32-34 | a handler over the text, with no name table yet |
| VarNameDatFiles.VarNameDatFile.UpdateVarName | server/src/VarNameDatFile.ts:37-83 | the cached table is `VarNames` of the text |
| VarNameDatFiles.SetTypes | server/src/VarNameDatFile.ts:55-82 | the walk over B, I, D, R, S, P, BP and EX builds the table of every type whose `///T` section exists |
| VarNameDatFiles.ParseRows | server/src/VarNameDatFile.ts:66-79 | the row loop, which stops at the first malformed row, builds the table `RowsFrom` specifies |
| VarNameDatFiles.RowsFromSpec | server/src/VarNameDatFile.ts:66-79 | a number's name is the one on its last matching row before the first malformed row, or absent |
| VarNameDatFiles.PutTypesLookup | server/src/VarNameDatFile.ts:55-82 | the table of a listed type is its section's rows, and an unlisted type has none |
| VarNameDatFiles.VarNameOfSpec | server/src/VarNameDatFile.ts:85-89 | `getVarName` finds a name exactly for a listed type with a section and a row numbered n before the first malformed row; the name is that of the last such row |
| VarNameDatFiles.VarNameDatFile.GetVarName | server/src/VarNameDatFile.ts:85-89 | the table entry for the type and number, if any; afterwards the cache holds the tables of the file's text |
| VarNameDatFiles.ScanRows | server/src/VarNameDatFile.ts:110-127 | the scanning loop returns the first row numbered n before the first malformed row |
| VarNameDatFiles.FindRow | server/src/VarNameDatFile.ts:110-127 | a found row is numbered n and lies before the first malformed row, with no earlier such row; no row means no such row exists |
| VarNameDatFiles.NameHasRange | server/src/VarNameDatFile.ts:92-130 | for a listed type, a name exists exactly when a range exists; the range is one whole row `[0, length)` of the section, numbered n |
| VarNameDatFiles.VarNameDatFile.GetVarNameRange | server/src/VarNameDatFile.ts:92-130 | the range `VarNameRange` specifies |
| VarNameDatFiles.CountAll | server/src/VarNameDatFile.ts:146-158 | the counting loops add one per entry of every type table |
| VarNameDatFiles.AllCountsSpec | server/src/VarNameDatFile.ts:136-161 | each name's count is the number of entries holding it over all types, and a name is counted exactly when some entry holds it |
| VarNameDatFiles.EntryCounted | server/src/VarNameDatFile.ts:136-161 | every name in a table is counted |
| VarNameDatFiles.VarNameDatFile.GetVarNameCnt | server/src/VarNameDatFile.ts:136-161 | the counts of the tables, which the cache now holds |
| VarNameDatFiles.QuickFixComments | server/src/VarNameDatFile.ts:220-222 | the quick-fix text keeps the row's number and prefix and replaces the name field by `'` and the name |
| VarNameDatFiles.QuickFixData | server/src/VarNameDatFile.ts:220-228 | the diagnostic carries fix text exactly when its line can be read |
| VarNameDatFiles.ValidateVarNames | server/src/VarNameDatFile.ts:166-170 | null exactly when the variable-name alias option is explicitly off |
| VarNameDatFiles.VarEntryDiagnosticIs | server/src/VarNameDatFile.ts:194-229 | an entry is reported exactly when its name occurs twice or more among the variable names and counted I/O names, does not start with `'`, and has a range; the report is an Information at that range with the variable or I/O message |
| VarNameDatFiles.PushEntryDiagnostics | server/src/VarNameDatFile.ts:195-231 | the loop over one type's table pushes each entry's diagnostic in order |
| VarNameDatFiles.PushTypeDiagnostics | server/src/VarNameDatFile.ts:194-232 | the loop over the types pushes every type's diagnostics in order |
| VarNameDatFiles.TableDiagnosticsSpec | server/src/VarNameDatFile.ts:195-231 | every pushed diagnostic comes from an entry's check, and every entry whose check reports is pushed |
| VarNameDatFiles.ValidateSpec | server/src/VarNameDatFile.ts:164-235 | every diagnostic reports a duplicated entry, and every duplicated entry with a range is reported |
| VarNameDatFiles.VarEntriesSound | server/src/VarNameDatFile.ts:194-232 | over any well-formed table of tables, every diagnostic of the entry walk reports a duplicated entry |
| VarNameDatFiles.VarEntriesComplete | server/src/VarNameDatFile.ts:194-232 | over any well-formed table of tables, every duplicated entry whose range is found is reported |
| VarNameDatFiles.ValidateQuickFixes | server/src/VarNameDatFile.ts:220-228 | every diagnostic carries fix text for a row of the file: the same row number with the name commented out by `'` |
| VarNameDatFiles.VarNameDatFile.Validate | server/src/VarNameDatFile.ts:164-235 | the result is `ValidateVarNames` of the text, the options and the other file's counts; unless the option is off, the cache now holds the tables, and otherwise it is untouched |
| VarNameDatFiles.CodeActions | server/src/VarNameDatFile.ts:238-247 | actions exactly when the requested kinds are present, non-empty, and start with the quick-fix kind |
| VarNameDatFiles.QuickFixesSpec | server/src/VarNameDatFile.ts:251-285 | one action per diagnostic with non-empty string data, replacing exactly that diagnostic's range with the data; no other actions |
| VarNameDatFiles.ValidateThenCodeActions | server/src/VarNameDatFile.ts:220-285 | every diagnostic `validate` gives yields its quick-fix action, and every action comes from one of them |
| VarNameDatFiles.VarNameDatFile.OnCodeAction | server/src/VarNameDatFile.ts:237-288 | the result is `CodeActions` of the request |
| VarDatFiles.Hover | server/src/VarDatFile.ts:75-115 | an answer exactly on a non-empty line inside a section |
| VarDatFiles.HeaderAbove | server/src/VarDatFile.ts:28-72 | a contents line lies below the `/<type>` line that opened its section, and no line in between (nor the line itself) opens a section |
| VarDatFiles.HoverCountsFromHeader | server/src/VarDatFile.ts:75-115 | the hover names the type of the nearest header above the cursor; for B, I, D and R the number is `offset * 10 + comma index`, for other types `offset` |
| IoMNameDatFiles.Hover | server/src/IoMNameDatFile.ts:84-116 | an answer exactly on a non-empty line inside a section |
| IoMNameDatFiles.SectionsShaped | server/src/IoMNameDatFile.ts:29-81 | every section was opened by a `/<name>` header with a non-empty name other than NAME; its contents are non-empty, inside the file, below the header, and hold only data lines and empty-name headers |
| IoMNameDatFiles.HoverCountsFromContents | server/src/IoMNameDatFile.ts:84-116 | the hover is `M <line - contents.start>` for the section holding the line |
| JbiFiles.SectionsOfJob | server/src/JbiFile.ts:48-97 | every section was opened by a `//<name>` header that is not `///`; its contents hold no other such header and no `///` or empty-name header |
| JbiFiles.JbiFile.constructor | server/src/JbiFile.ts:37-45 | a handler over the text, with the unknown-command level unset |
| JbiFiles.JbiFile.ApplySettings | server/src/JbiFile.ts:40-44 | a delivered setting sets the level to the severity its name gives; no setting leaves the level as it was |
| JbiPatterns.IoNumberToLogical | server/src/JbiFile.ts:124-149 | nothing exactly when `(IN\|OT)#\(([0-9]+)\)` matches nowhere; otherwise the leftmost match mapped to `bank + ((n-1)/8 + 1) * 10 + (n-1) % 8`, with bank 0 for IN and 10000 for OT |
| JbiPatterns.IoNumberAddressesIoName | server/src/JbiFile.ts:143-146 | `IN#(4L+i+1)` and `OT#(4L+i+1)` give the logical number IONAME.DAT stores for field i of line L of IN and OUT |
| JbiPatterns.NextMatch | server/src/JbiFile.ts:99-121 | a global pattern's next match is the leftmost one at or after the search start |
| JbiPatterns.FirstAcceptedSpec | server/src/JbiFile.ts:224-236 | the `exec` loop returns the first match, in order, that the loop body accepts; none when no match is accepted |
| JbiPatterns.BoundaryWithin | server/src/JbiFile.ts:104 | `\S{1,8}\b` ends at the last word boundary within eight characters, and fails only when there is none |
| JbiPatterns.VarTypeFrom | server/src/JbiFile.ts:120 | a variable type found is one of the alternatives `B\|I\|D\|R\|S\|P\|BP\|EX` and fits at the position; none is found only when no alternative fits |
| JbiPatterns.CommandMatchSpec | server/src/JbiFile.ts:355 | the command token follows an optional `EDTLCK`/`COMM`/tab prefix, consists of command characters with an optional final `$`, and is followed by whitespace or the end of the line |
| JbiPatterns.TimerAt | server/src/JbiFile.ts:437-442 | a tag `T=` preceded by whitespace, with its number ending at a word boundary; decimals when present are non-empty |
| JbiPatterns.RadixTenIsDecimal | server/src/JbiFile.ts:442 | reading a digit string in radix ten gives its decimal value, tying the radix reader of `0x`/`0o`/`0b` values to the decimal one |
| JbiPatterns.RadixTimer | server/src/JbiFile.ts:437-442 | a tag ` T=0` followed by `x`, `o` or `b` and a run of digits that ends the line matches up to the line's end, and its value is those digits read in radix 16, 8 or 2, or NaN when one of them is not a digit of that radix |
| JbiPatterns.HexTimerExample | server/src/JbiFile.ts:437-442 | the unescaped `.` lets ` T=0x1000` match, and `+m[1]` reads it as the hexadecimal 4096 |
| JbiPatterns.OctalTimerExample | server/src/JbiFile.ts:437-442 | ` T=0o778` matches but reads as NaN, since 8 is not an octal digit |
| JbiFiles.HexTimerFindings | server/src/JbiFile.ts:437-461 | ` T=0x1000` is out of range (an Error) and has four digits after the `x` (the decimals notice) |
| JbiPatterns.TimerFrom | server/src/JbiFile.ts:437-439 | the tag `exec` finds is the leftmost on the line, and none is found only when the line has none |
| JbiPatterns.FirstHit | server/src/JbiFile.ts:439 | the search returns the first position where the pattern matches, and none only when it matches nowhere from the start on |
| JbiFiles.SearchText | server/src/Workspace.ts:138-161 | the first line in `[start, end)` where the pattern matches, with the range of the match; no line before it matches; nothing when no line matches |
| JbiFiles.SearchLines | server/src/Workspace.ts:138-161 | the search loop returns what `SearchText` specifies |
| JbiFiles.SearchSection | server/src/Workspace.ts:112-164 | a match is found only inside the named section's contents of a readable file |
| JbiFiles.LabelLineMatch | server/src/JbiFile.ts:169-171 | the label matches after leading blanks only and ends at a word boundary, and it is the first such place |
| JbiFiles.LabelRange | server/src/JbiFile.ts:157-177 | a label's range lies on an INST contents line where the label follows only leading blanks |
| JbiFiles.JbiFile.SearchLabelRange | server/src/JbiFile.ts:157-177 | the range `LabelRange` specifies |
| JbiFiles.CvarRange | server/src/JbiFile.ts:186-204 | a C-variable's range is on a POS contents line that starts with `C`, zeros and n, from column 0 to the end of the match |
| JbiFiles.CvarLineFindsPadded | server/src/JbiFile.ts:198 | a line `C`, zeros, the decimal of n, then a non-word character matches for n over the whole line |
| JbiFiles.JbiFile.SearchCvariable | server/src/JbiFile.ts:186-204 | the range `CvarRange` specifies |
| JbiFiles.ScanMatches | server/src/JbiFile.ts:224-236 | the `exec` loop returns the first accepted match |
| JbiFiles.LabelEndsDefinition | server/src/JbiFile.ts:209-322 | with no accepted job name, the first label covering the cursor ends the search: the definition is that label's range in this file, or nothing |
| JbiFiles.CvarEndsDefinition | server/src/JbiFile.ts:259-279 | with no existing job name and no label under the cursor, the first C variable under it ends the search: the answer is its POS line in this file or nothing, never an I/O or variable location |
| JbiFiles.MissingJobFallsThrough | server/src/JbiFile.ts:224-236 | a job name whose file does not exist is passed over as if absent |
| JbiFiles.JbiFile.OnDefinition | server/src/JbiFile.ts:209-322 | the result is `Definition` of the text: job, then label, then C variable, then I/O, then variable |
| JbiFiles.InstLine | server/src/JbiFile.ts:326-351 | a line and offset only when the cursor line is a non-empty line of the INST section, and the line is then the cursor line's text |
| JbiFiles.Hover | server/src/JbiFile.ts:325-432 | an answer only on a non-empty INST contents line |
| JbiFiles.InstLineOnInst | server/src/JbiFile.ts:326-351 | every non-empty line of the INST section is found, with the offset `line - contents.start` (the converse of `InstLine`) |
| JbiFiles.CommandHoverOnToken | server/src/JbiFile.ts:354-377 | a cursor inside the half-open command token gives the command hover, before any variable or I/O lookup |
| JbiFiles.VariableHoverFirst | server/src/JbiFile.ts:378-429 | off the command token, the first variable under the cursor that has a non-empty name gives the hover, before any I/O signal on the line |
| JbiFiles.CommandHoverFirst | server/src/JbiFile.ts:325-377 | on the command token of a non-empty INST line the file's hover is the command hover, labelled with the line's offset into the INST contents |
| JbiFiles.JbiFile.OnHover | server/src/JbiFile.ts:325-432 | the result is `Hover` of the text |
| JbiFiles.CommandDiagnosticsSpec | server/src/JbiFile.ts:474-502 | exactly one diagnostic when a level is set and the command token is not a known command, at the configured level, spanning exactly the token, with the unknown-command message; none otherwise |
| JbiFiles.TimerFindings | server/src/JbiFile.ts:447-467 | a value below 0 or above 655.35 gives one Error first; otherwise above 65.535 gives one Information; three or more decimals add an Information last; no other Error |
| JbiFiles.TimerDiagnosticsSpec | server/src/JbiFile.ts:434-472 | no diagnostics without a tag; otherwise the findings of the leftmost tag, each spanning that tag, with its message |
| JbiFiles.CollectDiagnostics | server/src/JbiFile.ts:514-529 | the loop over the lines pushes the checks of every line that lies in INST |
| JbiFiles.DiagnosticsOnInstLines | server/src/JbiFile.ts:504-533 | a readable file always gets a list, and every diagnostic lies on one line of the INST section |
| JbiFiles.JbiFile.Validate | server/src/JbiFile.ts:504-533 | the result is `Validation` of the text and the configured level |
| JbiPatterns.JobTagAt | server/src/JbiFile.ts:546 | a tag `(?<=\sJOB):\S*` starts at a colon and ends inside the text |
| JbiPatterns.TagsApart | server/src/JbiFile.ts:546-552 | no earlier tag runs past the start of a tag, because a tag follows a blank and holds none |
| JbiPatterns.MatchesVisit | server/src/JbiFile.ts:548 | the `exec` loop visits every match that no earlier match it could visit runs past |
| JbiFiles.Completion | server/src/JbiFile.ts:535-572 | an answer only on a non-empty line, and then the controller's job names, one Function item each, in order |
| JbiFiles.CompletionSpec | server/src/JbiFile.ts:545-569 | job names are offered exactly when a tag visited by the loop holds the cursor, both ends included |
| JbiFiles.CompletionOnTag | server/src/JbiFile.ts:545-569 | a cursor anywhere from a tag's colon to its end gets the job names |
| JbiFiles.JbiFile.OnCompletion | server/src/JbiFile.ts:535-572 | the line read and the `exec` loop return what `Completion` specifies |
| PscFiles.TypeAndNumberReadsFields | server/src/PscFile.ts:32 | a line `type,number,...` yields that type and number |
| PscFiles.Hover | server/src/PscFile.ts:23-52 | an answer only on a non-empty line that starts with a type and a number |
| PscFiles.HoverShowsControllerValue | server/src/PscFile.ts:23-52 | on a line `type,number,...` the hover is `<type><number>: <value>` when the controller has a value, and nothing otherwise |
| PscFiles.Definition | server/src/PscFile.ts:57-77 | an answer only on a non-empty line that starts with a type and a number |
| ParameterFiles.ParameterLocation | server/src/RobotController.ts:24-43 | a location exactly when ALL.PRM is readable and getParameterRange finds the parameter; it lies in ALL.PRM, on line `contents.start + n / 10` of the type's section, over the `split(",")` piece `n % 10` |
| PscFiles.DefinitionInParameterFile | server/src/PscFile.ts:57-77 | when the controller answers from ALL.PRM, the definition of a line `type,number,...` is that parameter's ALL.PRM location |
| PscFiles.DefinitionIsControllerLocation | server/src/PscFile.ts:57-77 | on a line `type,number,...` the definition is the controller's location of that parameter |
| PscFiles.MatchLineSpec | server/src/PscFile.ts:91-93 | the type capture is the longest non-blank prefix after which number, comma and value can follow (the backtracking of `(\S+)`); no match exactly when no prefix admits them |
| PscFiles.MatchLineReadsFields | server/src/PscFile.ts:91-98 | a three-field line `type,number,value` yields exactly that type, number and value, the match covering the line |
| PscFiles.TypeSwallowsCommas | server/src/PscFile.ts:91 | on `A,1,2,3,4` the type capture is `A,1,2`, the number 3 and the value 4 |
| PscFiles.LineCheck | server/src/PscFile.ts:95-128 | a diagnostic exactly for a matching line |
| PscFiles.LineCheckOutcomes | server/src/PscFile.ts:100-127 | the range is line i from 0 to the match length; an Information exactly when the controller's value equals the file's; a missing value gives the not-found message, a different value the mismatch message with both values, an equal value the match message |
| PscFiles.Validation | server/src/PscFile.ts:80-133 | null exactly when the parameter file does not exist; an empty list when the text is missing |
| PscFiles.OnePerMatchingLine | server/src/PscFile.ts:88-132 | one diagnostic per matching line, in line order, each the line's check; none for other lines |
| PscFiles.Validate | server/src/PscFile.ts:80-133 | the `forEach` loop returns `Validation` |
| PscFiles.MessageAsWritten | server/src/PscFile.ts:104-127 | the code as written passes the message key as the locale and the type+number as the key: with no further arguments the message is undefined, and a type+number found in neither table comes back as the message |
| PscFiles.NameInKeySlot | server/src/PscFile.ts:108 | with an English table holding the not-found text, the code as written shows `RS1`, while `this.tr` shows the text |
| PscFiles.MatchMessageUndefined | server/src/PscFile.ts:124 | the match message as written is undefined, while `this.tr` gives its text |

## Left out

- File reading and the editor documents are not modelled: a file's text is a parameter. This covers `getTextLines`, `getTextLine`, the open-document branch of `searchText`, `uriStringToFsPath` and `fsPathToUriString`.
- Locations hold a file path instead of a URI, because URI encoding is I/O plumbing.
- The hover URI is not modelled in any hover handler (ALL.PRM, IONAME.DAT, VAR.DAT, IOMNAME.DAT, job and PSC files): the text of the handler's own file stands for the text of the hovered document.
- The asynchronous settings requests in the constructors are left out because they are event plumbing. Their outcome is an explicit call (`JbiFile.ApplySettings`) or a parameter (the locale).
- `initTranslation` is left out because it is file loading. `getSupportedLocales` is left out because it only lists the set behind `IsLocaleSupported`.
- `RobotControllerFile.fileName` and `tr` are left out because they are plumbing. `tr` is `Translate` with the handler's locale.
- The base `validate`, `onDefinition`, `onHover`, `onCompletion` and `onCodeAction` are not modelled, because they return null unconditionally.
- `PscFile.onFoldingRanges` is not modelled for the same reason.
- The `RobotController` lookups are parameters (`Controller`, `ParameterLookups`). This revision of `RobotController.ts` does not define most of them: `isParameterFileExist`, `getParameterValue`, `isJbiFileExist`, `getJbiFilePath`, `getIoNameLocation`, `getVarNameLocation`, `getIoName`, `getVarname` and `getJobNameList` are missing.
- `RobotController.getParameterLocation` is defined. It reaches ALL.PRM through the controller's file-system cache (`getParameterFile`), so it too is the parameter `ParameterLookups.locationOf`. Its result is modelled as `ParameterFiles.ParameterLocation`, and `PscFiles.DefinitionInParameterFile` states the definition when the controller answers that way.
- `Inform.isCommandStr` is a parameter, because the command table is loaded from JSON. `Inform.getDetailCommand` is called by the hover but is missing from this revision of `Inform.ts`, so it is a parameter too. `Inform.getCommandDescription` is modelled inside `JbiFiles.CommandHover` as the translation of `inform.description.` plus the command.
- `Util.isPositionInMatch` is not part of this model. It is the parameter `positionInMatch` of `Controller`, used by the I/O and variable loops of `onDefinition` and `onHover`. The job-name, label and C-variable loops test containment inline, with both match ends included.
- Columns and lengths are counted in Unicode code points, while JavaScript strings and the protocol's `character` count UTF-16 code units. Lines holding a character outside the Basic Multilingual Plane are outside the model: every column-based result (field ranges, `getIndexAtPosition`, match ranges, hovers) would differ on them.
- The controller's job-name list (`getJobNameList`) is a parameter of `JbiFile.OnCompletion`, because this revision of `RobotController.ts` does not define it.
- Hover contents are modelled as one string: the markdown wrapper and the array around it are left out.
- The `source: 'inform'` field of PSC diagnostics is left out.
- JavaScript number parsing of ALL.PRM fields is modelled for signed decimal integers only:
  - `ToNumber` reads a blank-padded optionally signed decimal, or NaN.
  - Fractions, exponents and `0x`/`0o`/`0b` fields of ALL.PRM are outside the model.
  - The job-file timer value is read in full by `JbiPatterns.JoinedValue`: fractions, exponents and unsigned `0x`/`0o`/`0b` integers.
- Timer values are exact reals built from their digits, not IEEE doubles, so rounding near 65.535 and 655.35 is outside the model.
- `searchLabelRange` escapes only the first `*` of the label. The model matches the label text literally, so labels holding other regular-expression metacharacters are outside the model.
- Integers above 2^53 are outside the model for every `+str` conversion (job-file C-variable, I/O and variable numbers, PSC parameter numbers and values). The model keeps them exact, while JavaScript rounds them to the nearest double, and from 10^21 upward also prints them in exponent form.
- JavaScript `$` patterns in the quick-fix replacement are left out: a name containing `$&` or `$1` is inserted literally.
- `getSectionNames`, which this revision of `SectionedDocument.ts` does not define, is taken to be the map's keys in insertion order.
- VarDatFile and IoMNameDatFile get no class of their own: their cached document is the shared `RobotControllerFile` class with their grammar.
- `RobotControllerFiles.RobotControllerFile.OnFoldingRanges`: VarDatFile.ts defines no folding handler, so for VAR.DAT the shared class offers a method the program does not have; nothing in the model calls it for VAR.DAT.
- `Translations.Translate`, and through it every handler message (PSC checks, IONAME.DAT and VARNAME.DAT duplicate diagnostics, job-file command hovers and diagnostics), uses the corrected `Format`. `Translations.TranslatesAgree` shows this is what the program shows whenever the stored texts have single-digit placeholders; texts with `{10}` or longer placeholders are shown as intended, not as written.
- `JbiFiles.CollectDiagnostics`: one loop runs both INST checks on each line, as `validate` does, rather than two separate pushes.
- `IoNameDatFiles.CountsSpec`: states each name's count but not that the counts sum to the table size.

## Findings

| source | as written | input that shows it | evidently intended | confidence | as-written member | corrected member |
|---|---|---|---|---|---|---|
| server/src/Translation.ts:62 | `args[0]` is the first character of the captured digits, so `{10}` reads index 1 | `format("{10}", "a", "b")` gives `b` | `{10}` is index 10, which is out of range here, so the placeholder stays as written | not executed | Translations.FormatAsWritten and Translations.TranslateAsWritten (see Translations.FormatReadsFirstDigit) | Translations.Format and Translations.Translate, with Translations.FormatPlaceholder, Translations.FormatReadsFirstDigit and Translations.TranslatesAgree |
| server/src/PscFile.ts:108-124 | `translate` imported as `tr` takes the locale first, so the message key fills the locale slot and the type+number the key slot | a not-found line `RS1,...` with the message in the English table shows `RS1`; the match line's message is undefined | `this.tr(key, ...)` (server/src/RobotControllerFile.ts:56-58), which supplies the handler's locale | not executed | PscFiles.MessageAsWritten (see PscFiles.NameInKeySlot, PscFiles.MatchMessageUndefined) | PscFiles.LineCheckOutcomes |
