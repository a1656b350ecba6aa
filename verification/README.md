# go-injector-yaml, modelled in Dafny

go-injector-yaml generates configuration-loading code for Go programs. It
has two generators and a runtime:

- **Type scanner.** It reads the Go files of a configuration directory and
  collects every struct declaration marked `//@Configuration`. It keeps the
  *roots*: the types no other collected type mentions. It then writes an
  aggregate `ApplicationConfig` struct with one yaml-tagged field per root.
- **Generator.** It scans the same files for struct names, `//@DefaultConfig`
  and `//@AutoExecute` directives and type aliases. From these it writes
  three Go functions: `mergeConfig`, `initDefaultConfig` and `autoExecute`.
  It splices them into a loader skeleton after three insertion markers.
- **Runtime.** The generated `Loader` starts with the defaults. It then
  merges a file layer, a cloud layer and a `-key=value` argument layer over
  them, in that order. A leaf takes a layer's value only when that value is
  not blank.

The model covers these pieces:

- the scanning of the trimmed source lines:
  - marker positions;
  - the type name and alias of a marked declaration;
  - the declaration block, cut out by counting braces;
  - the default and start-up directives;
  - the package clause and imports;
- root classification and the aggregate declaration, including the tag
  round trip between the text the scanner writes and what the loader reads
  back;
- template filling and code synthesis, and the splice into the skeleton
  with its marker validation;
- the runtime merge, as semantics over a record tree (`Merge.Node`), with
  the argument parser and the layer order.

Every panic of the scanning and generating code is an error value
(`Results.Error`) instead. The reflection panics of the generated loader
are not modelled; "## Left out" lists them.

Go's map iteration order is never fixed. An operation that iterates a map
either takes the visiting order as a parameter or picks one with
`Assoc.SomeListing`. Lemmas then show which parts of the result do not
depend on the order: whether the operation succeeds, and which lines it
produces. The order of those lines does depend on it.

Modules follow the program's structure:

| module | models |
|---|---|
| `Results` | `Option`, `Result`, the error kinds, and `All` (the first failure of a run of results) |
| `Text` | the parts of Go's `strings` package the source uses, on ASCII text |
| `Utils` | `config/utils/utils.go` |
| `Assoc` | maps built by successive assignments, where a later entry wins, and map iteration |
| `Scanner` | the scanning helpers that the generator and the type scanner both carry |
| `Imports` | `getPackage` and `getImports` |
| `Directives` | `getDefaultConfig` and `getAutoExecute` |
| `TypeScanner` | containment, roots, `combinationType` and `scanTypeInfo` |
| `CodeGen` | the templates, `generateFunc`, `generateConfigs`, `generateExecute` and `getScanTypes` |
| `Splice` | `writeResultToFile`'s splice and the generator's `Begin` |
| `Merge` | the generated `mergeConfig` |
| `Loader` | the generated loader's argument parser, `Begin` and `GetString` |

Three behaviours of the code are easy to get wrong, and the model follows
the code in each:

- A declaration block runs from the declaration line through the line
  where the brace count returns to zero. Both of these lines are part of
  the block.
- Containment cycles are not rejected. Both types of a cycle drop out of
  the roots (`TypeScanner.CycleExcluded`), and no error is raised.
- The generated loader's `Begin` never calls the generated `autoExecute`.
  `Loader.Begin` therefore does not run the start-up calls.

## Model

| member | source | states |
|---|---|---|
| Utils.IsBlank | config/utils/utils.go:5-16 | a text is blank exactly when every character is the space character, so the empty text is blank |
| Utils.NotBlank | config/utils/utils.go:18-20 | a text is not blank exactly when some character is not a space |
| Utils.EmptyIsBlank | config/utils/utils.go:6-9 | the empty text is blank and not NotBlank |
| Utils.OtherWhiteSpaceIsNotBlank | config/utils/utils.go:10-15 | tabs and newlines make a text non-blank; only the space character counts |
| Utils.PaddingKeepsBlankness | config/utils/utils.go:10-15 | adding spaces on either side never changes whether a text is blank |
| Utils.GetDefaultValidators | config/utils/utils.go:22-41 | validators exist for exactly the String, Uint, Int, Float64 and Bool kinds; String's is NotBlank; the others accept everything |
| Scanner.TrimAndDropEmpty | config/generator/config_generator.go:276-282 | every kept line is non-empty and already trimmed, and there are no more lines than before |
| Scanner.NormalizeLines | config/generator/config_generator.go:275-283 | the normalised lines are non-empty, trimmed and free of newlines |
| Scanner.TrimAndDropNoChar | config/generator/config_generator.go:276-282 | trimming and dropping lines adds no character the raw lines lack |
| Scanner.TrimAndDropNormal | config/generator/config_generator.go:276-282 | lines that are already normal pass through unchanged |
| Scanner.TrimAndDropSpec | config/generator/config_generator.go:276-282 | the kept lines are the raw lines' trimmed forms that are not empty, in raw order; a text is kept exactly when some raw line trims to it and it is not empty |
| Scanner.NormalizeLinesSpec | config/generator/config_generator.go:275-283 | the normalised lines of a text are its newline-separated lines, trimmed, with the empty ones dropped, in order; a text is one of them exactly when some line of the text trims to it and it is not empty |
| Scanner.NormalizeIdempotent | config/generator/config_generator.go:275-283 | writing normalised lines back out, one per line, and normalising again gives the same lines |
| Scanner.IsCodeAnnotation | config/generator/config_generator.go:394-399 | fails exactly when the trimmed text is shorter than two characters; otherwise true exactly when the trimmed text starts with `//` |
| Scanner.KindOfMeaning | config/generator/config_generator.go:451-455 | a line is a recorded position exactly when it holds the marker, a next line exists, and the trimmed next line has at least two characters and does not start with `//`; it is unreadable exactly when the next line is missing or too short |
| Scanner.PositionsFrom | config/generator/config_generator.go:449-457 | over line kinds: fails at an unreadable marker; otherwise gives ascending positions, each a marker before code, and misses none |
| Scanner.FindConfigurationsPosition | config/generator/config_generator.go:449-457 | fails only at a marker whose next line is missing or too short, with that line's error; otherwise the positions are strictly ascending and are exactly the marker lines followed by a non-comment line |
| Scanner.KeywordsApart | config/generator/config_generator.go:401-404 | on a struct declaration line, the first `struct ` starts after the end of the first `type ` |
| Scanner.GetTypeName | config/generator/config_generator.go:400-407 | empty for a line that is not a struct declaration; otherwise a trimmed text, with no space at either end |
| Scanner.TypeNameBetween | config/generator/config_generator.go:400-407 | when neither keyword occurs earlier on the line, the name is the trimmed text between the first `type ` and the `struct ` after it |
| Scanner.DeclarationName | config/generator/config_generator.go:400-407 | for `type N struct ...` with an identifier N that does not end in `struct`, the name is exactly N |
| Scanner.GetTypeAlias | config/generator/config_generator.go:409-416 | without `@Alias=`: the name with its first letter lower-cased, or an error for an empty name; with it: the first space-separated word after the tag |
| Scanner.BlockEndFrom | config/generator/config_generator.go:430-441 | the result is the first line where the running brace count from the declaration line returns to zero; None exactly when the count never does, where the source runs off the file |
| Scanner.ExtractBlock | config/generator/config_generator.go:421-443 | a marker on the last line fails; a block is the contiguous run of lines from the declaration line through its closing line, with the declaration's name and alias; with a readable alias it fails exactly when the braces never balance |
| Scanner.ExtractAll | config/generator/config_generator.go:421-444 | one declaration per marker, in marker order, or the error of the first failing marker |
| Scanner.AliasMap | config/generator/config_generator.go:429 | the alias map has exactly one key per declared name |
| Scanner.AliasMapLastWins | config/generator/config_generator.go:429 | a name's alias is the one its last declaration gave |
| Scanner.GetConfiguration | config/generator/config_generator.go:418-446 | succeeds exactly when every marker's extraction does; then one block per marker, in marker order, and an alias key for exactly the declared names; each name's alias is the one its last marker gave |
| Scanner.StructName | config/generator/config_generator.go:289-293 | a name exactly for struct declaration lines, and then the line's type name |
| Scanner.GetStructType | config/generator/config_generator.go:286-296 | every struct declaration line contributes its name, and every name comes from such a line |
| Scanner.GetStructTypeAppend | config/generator/config_generator.go:288-294 | the names of two runs of lines are the first run's followed by the second's |
| Imports.FirstLineWith | config/type/config_type.go:258-262 | the first line at or after the start that contains the text, or -1 when none does |
| Imports.GetPackage | config/type/config_type.go:257-264 | fails with NoPackage exactly when no line contains `package`; a result is always the trimmed text after the first eight characters of the first line containing `package` |
| Imports.GetPackageOfFirstLine | config/type/config_type.go:257-264 | the first line containing `package` decides: if it has at least eight characters, the package is the trimmed text after its first eight; if it is shorter, the result is ShortPackageLine for that line |
| Imports.PackageClause | config/type/config_type.go:257-264 | a file starting with `package N` has package N |
| Imports.GetPackageNoClause | config/type/config_type.go:263 | a file without `package` fails |
| Imports.QuotedPart | config/type/config_type.go:273-281 | None without a quote; fails exactly when the line has a single quote, which the source cannot slice |
| Imports.ImportScan | config/type/config_type.go:272-289 | running past the last line is an error |
| Imports.ImportScanSpec | config/type/config_type.go:272-289 | the scan succeeds exactly when some line ends the import and no line up to the first such line has exactly one double quote; a line ends it when it has a `)`, or a quote while no `(` has been seen; the scan then yields the quoted text of each line from the start to that end, in order |
| Imports.ImportsFromSpec | config/type/config_type.go:268-291 | from a given line on: fails exactly when the scan of some import line fails, with the first such line's error; otherwise a path is collected exactly when some import line's scan yields it |
| Imports.GetImports | config/type/config_type.go:266-293 | fails exactly when the scan of some line containing `import` fails, with the first such line's error; otherwise a path is imported exactly when some such line's scan yields it |
| Imports.GetImportsOfLine | config/type/config_type.go:266-293 | a file whose only import is `import "p"` imports exactly p |
| Imports.SingleLineImport | config/type/config_type.go:266-293 | `import "p"` yields exactly p |
| Imports.BlockLines | config/type/config_type.go:272-289 | inside a block, the quoted lines up to the closing `)` yield their paths in order |
| Imports.ImportBlock | config/type/config_type.go:266-293 | an `import (` block with one quoted path per line yields every path, in order |
| Imports.GetImportsOfBlock | config/type/config_type.go:266-293 | a file whose only import is such a block has exactly those imports |
| Imports.GetImportsWithoutImport | config/type/config_type.go:266-293 | a file without `import` has no imports |
| Directives.DefaultEntryOfWords | config/generator/config_generator.go:335-339 | a declaration line of at least three words assigns its third word the call in its second word |
| Directives.DefaultEntries | config/generator/config_generator.go:328-340 | line i assigns type t exactly when it holds the marker and its next line declares t |
| Directives.GetDefaultConfig | config/generator/config_generator.go:325-342 | fails exactly when a marker is on the last line; otherwise a type has a default exactly when some marker's next line declares it |
| Directives.GetDefaultConfigLastWins | config/generator/config_generator.go:338 | the last marker declaring a type gives its default |
| Directives.ExecuteEntryOfWords | config/generator/config_generator.go:354-358 | a declaration line of at least two words contributes its second word |
| Directives.AutoExecuteCalls | config/generator/config_generator.go:344-361 | fails exactly when a marker is on the last line; otherwise a text is a call exactly when the line after some marker names it |
| Directives.GetAutoExecute | config/generator/config_generator.go:344-361 | the loop over the lines computes AutoExecuteCalls: the calls in marker order, or the last-line error |
| TypeScanner.ContainsTypeScan | config/type/config_type.go:121-132 | true exactly when the first type is collected and some line of its block has the second type as a whole single-space-separated word |
| TypeScanner.ContainedBeforeNext | config/type/config_type.go:102-111 | one more container pass marks exactly the types that container holds |
| TypeScanner.MarkContained | config/type/config_type.go:103-110 | one pass sets to -1 exactly the other types the container holds, and leaves every other order unchanged |
| TypeScanner.GetTopType | config/type/config_type.go:101-119 | whatever order the map is visited in, the result is exactly the collected types that no other collected type contains |
| TypeScanner.RootsAfterAllPasses | config/type/config_type.go:112-118 | after every pass, the types still at 0 are exactly the roots |
| TypeScanner.SelfContainmentKeepsRoot | config/type/config_type.go:104-106 | a type that mentions only itself stays a root |
| TypeScanner.CycleExcluded | config/type/config_type.go:101-119 | two types that contain each other are both excluded from the roots; no error is raised |
| TypeScanner.TagKey | config/generator/config_generator.go:42 | the loader's cut of a tag exists exactly for tags of at least seven characters, and is seven characters shorter |
| TypeScanner.TagRoundTrip | config/type/config_type.go:55 | cutting the tag text the scanner writes gives back the alias |
| TypeScanner.FieldLineRoundTrip | config/type/config_type.go:55 | the tag of a generated field line, read back by the loader, is its alias |
| TypeScanner.FieldLineSingle | config/type/config_type.go:55 | a field line is one line when its name and alias are |
| TypeScanner.FieldLines | config/type/config_type.go:54-56 | succeeds exactly when every root has a non-empty alias; then one field line per root, in root order; otherwise a root without one is named |
| TypeScanner.CombinationType | config/type/config_type.go:48-65 | succeeds exactly when every root has a non-empty alias; the text starts with the fixed header |
| TypeScanner.CombinationTypeLines | config/type/config_type.go:48-65 | read line by line after the header: one field line per root, in root order, then the footer's lines |
| TypeScanner.BlockEntries | config/type/config_type.go:90-94 | each block is filed under the type name of its first line |
| TypeScanner.AddFile | config/type/config_type.go:87-97 | the imports after a file are the earlier ones plus the file's; each type the file declares is mapped to its last block in the file and given order 0; the file's aliases overwrite earlier ones; every other type and alias keeps its entry |
| TypeScanner.ScanTypeInfoOrders | config/type/config_type.go:90-94 | every collected type has order 0, and nothing else has an order |
| TypeScanner.ScanTypeInfoSkipsLoader | config/type/config_type.go:82-85 | the generated loader's own file contributes nothing |
| TypeScanner.ScanTypeInfoLaterWins | config/type/config_type.go:90-97 | a later file's type replaces an earlier block of the same name with its last block in that file, and other types keep theirs; its aliases overwrite earlier ones, and other aliases are kept |
| TypeScanner.Aggregate | config/type/config_type.go:26-27 | succeeds exactly when every root has an alias; the text is the aggregate declaration of a listing of exactly the roots, each once |
| TypeScanner.Begin | config/type/config_type.go:22-36 | a blank directory is refused and a failing scan stops the run with its error; the run succeeds exactly when the directory is not blank, the scan succeeds and every root has an alias; the text is then the aggregate declaration of exactly the scanned roots |
| CodeGen.FillPieces | config/generator/config_generator.go:363-369 | replacing a placeholder in a template of placeholder-free pieces puts the name in both places and changes nothing else |
| CodeGen.GetTemplate1 | config/generator/config_generator.go:363-365 | the filled first template equals the case written out with the name |
| CodeGen.GetTemplate2 | config/generator/config_generator.go:367-369 | the filled second template equals the case written out with the name |
| CodeGen.FilledCasesHaveNoPlaceholder | config/generator/config_generator.go:363-369 | a filled case holds no `{$type}` unless the name brought one |
| CodeGen.GenerateFunc | config/generator/config_generator.go:371-380 | the generated function starts with the fixed header |
| CodeGen.GenerateFuncCaseOrder | config/generator/config_generator.go:374-379 | each type's first case stands after the header and the earlier types' cases; its second case stands after the middle text and the earlier second cases |
| CodeGen.CasesHaveNoPlaceholder | config/generator/config_generator.go:374-377 | with brace-free names, the inserted cases hold no `{$type}` |
| CodeGen.AssignLines | config/generator/config_generator.go:386-389 | succeeds exactly when every visited default has a usable alias; the lines are exactly one assignment per visited default; the first type without an alias is named |
| CodeGen.GenerateConfigs | config/generator/config_generator.go:382-393 | a generated body starts with the initDefaultConfig header |
| CodeGen.GenerateConfigsAnyOrder | config/generator/config_generator.go:387 | whatever order the map is visited in, generation succeeds exactly when every default's type has a usable alias |
| CodeGen.AssignLinesOnePerDefault | config/generator/config_generator.go:387-389 | whatever the visiting order, there is one line per default, and the lines are exactly the defaults' assignments |
| CodeGen.GenerateConfigsLines | config/generator/config_generator.go:382-393 | read line by line after the header: the assignments, then the closing brace |
| CodeGen.GenerateExecute | config/generator/config_generator.go:459-470 | the body starts with the autoExecute header |
| CodeGen.GenerateExecuteLines | config/generator/config_generator.go:459-470 | read line by line: the header lines, the calls in order, then the closing brace |
| CodeGen.StructTypeMembers | config/generator/config_generator.go:286-296 | a name is collected exactly when some line declares that struct |
| CodeGen.ScanFileMembers | config/generator/config_generator.go:303-308 | a file's names, defaults and calls are exactly those it declares |
| CodeGen.Gather | config/generator/config_generator.go:302-321 | the fold succeeds exactly when every file does; otherwise it reports the error of the first failing file |
| CodeGen.GatherMembers | config/generator/config_generator.go:310-314 | what is gathered is exactly what some file contributed |
| CodeGen.GatherLaterWins | config/generator/config_generator.go:312-314 | a later file's default for a type replaces an earlier one |
| CodeGen.GetScanTypes | config/generator/config_generator.go:298-323 | succeeds exactly when every file scans; otherwise fails with the scan error of the first file that does not |
| CodeGen.GetScanTypesMembers | config/generator/config_generator.go:298-323 | the names, defaults and calls gathered are exactly those some file declares |
| CodeGen.GetScanTypesLaterWins | config/generator/config_generator.go:312-314 | the last file's default for a type wins |
| Splice.Note | config/generator/config_generator.go:480-497 | one marker's step on a line fails exactly when the marker was already seen, naming that line; otherwise it keeps the marker's first line |
| Splice.ScanLine | config/generator/config_generator.go:476-497 | the three markers are checked on a line in the order merge, defaults, execute; a failure is a duplicate at that line |
| Splice.ScanSlots | config/generator/config_generator.go:474-498 | the scan succeeds exactly when no marker is repeated; each slot is then its marker's first line; a failure names a marker, its second line and an earlier first line |
| Splice.FindMarkers | config/generator/config_generator.go:474-498 | ScanSlots for the three insertion markers |
| Splice.SlotIsLine | config/generator/config_generator.go:475-498 | a completed scan's slot is the marker's first line, and the marker is not repeated |
| Splice.Spliced | config/generator/config_generator.go:507-519 | the output of n template lines has n lines plus the fragments inserted before line n |
| Splice.SplicedLine | config/generator/config_generator.go:508-509 | template line i lands at i plus the number of fragments in front of it |
| Splice.SplicedAfter | config/generator/config_generator.go:510-518 | a fragment stands right after its marker's line |
| Splice.SplicedShape | config/generator/config_generator.go:507-519 | with distinct slots, the output has three more lines than the template; every template line keeps its order; each fragment follows its marker line |
| Splice.WriteResult | config/generator/config_generator.go:472-519 | succeeds exactly when each marker appears on exactly one line and no two markers share a line; a repeated marker is reported first, naming a line after the marker's first line; MissingMarker is reported exactly when no marker repeats but one is absent; any other failure is MarkerConflict; the output is the splice, with the shape SplicedShape states |
| Splice.Emit | config/generator/config_generator.go:246-250 | succeeds exactly when every default's type has an alias and the markers are fine; a default without an alias fails with EmptyAlias naming such a default, before any marker is checked; with every default aliased, a failure is one of the marker checks' errors; the output has the spliced shape for the generated fragments, under some visiting order of the defaults that lists each default once |
| Splice.Generate | config/generator/config_generator.go:242-251 | a failing scan stops the run with its error; otherwise it succeeds exactly when the defaults are aliased and the markers are fine; an unaliased default's EmptyAlias comes before any marker error, which is reported only when every default is aliased |
| Assoc.FromEntries | config/generator/config_generator.go:338 | the keys are exactly those some entry assigns |
| Assoc.FromEntriesLastWins | config/generator/config_generator.go:338 | a key holds the value of its last assignment |
| Assoc.FromEntriesAppend | config/generator/config_generator.go:312-314 | assigning two runs one after the other lets the later run override |
| Assoc.SomeListing | config/type/config_type.go:113-117 | a map iteration lists every key exactly once |
| Merge.Lookup | config/generator/config_generator.go:53-54 | a missing key reads as the empty text |
| Merge.MergeKeepsShape | config/generator/config_generator.go:38-59 | merging never changes the tree's shape: same tags, same nesting, same order |
| Merge.MergeIsOverride | config/generator/config_generator.go:43-56 | flattened, the merged tree is the original's leaves, each replaced by the loaded value at its full path when the validator accepts that value |
| Merge.MergeChangesOnlyToValid | config/generator/config_generator.go:52-55 | a leaf keeps its path; it changes only to an accepted loaded value at that path; an accepted value always lands |
| Merge.MergeNodeUnchanged | config/generator/config_generator.go:53 | a tree whose every leaf path reads a rejected value comes out unchanged |
| Merge.EmptyMergeIsIdentity | config/generator/config_generator.go:38-59 | merging an empty map under NotBlank changes nothing |
| Merge.BlankValuesNeverOverwrite | config/generator/config_generator.go:53 | under NotBlank, a map of blank values changes nothing |
| Merge.MergeNodeIdempotent | config/generator/config_generator.go:38-59 | merging the same map twice is merging it once |
| Loader.ArgEntry | config/generator/config_generator.go:160-165 | an empty argument and a dash argument without `=` fail; other plain arguments assign nothing; a dash argument assigns the text before its first `=` to the rest |
| Loader.ArgEntries | config/generator/config_generator.go:160-166 | succeeds exactly when every argument does; one entry per argument, in order; otherwise the first failing argument's error |
| Loader.ParseArgs | config/generator/config_generator.go:158-166 | succeeds exactly when every argument parses |
| Loader.FlagRoundTrip | config/generator/config_generator.go:161-164 | parsing `-key=value` gives back key and value, for any value, as long as the key has no `=` |
| Loader.ParseFlags | config/generator/config_generator.go:158-166 | parsing a run of flags gives the map their pairs assign in order, so a later duplicate wins |
| Loader.PlainArgumentsIgnored | config/generator/config_generator.go:161 | a leading plain argument, such as the program path, changes nothing |
| Loader.MergeLayersPointwise | config/generator/config_generator.go:93-100 | after all layers, every leaf keeps its path and holds the last layer's non-blank value there, or its default |
| Loader.ExternalLayers | config/generator/config_generator.go:93-100 | the argument layer always comes last |
| Loader.RegisterLeaves | config/generator/config_generator.go:173-196 | the string fields register writes are exactly the tree's leaves, with their paths and values, in field order |
| Loader.AssignmentsKeys | config/generator/config_generator.go:182-188 | the key set register builds holds exactly the written paths |
| Loader.AssignmentsLastWins | config/generator/config_generator.go:182-188 | a path holds its last write, so a struct field erases an earlier string field at the same path |
| Loader.StringSet | config/generator/config_generator.go:197-205 | getStringSet keeps a path exactly when its last write was a string, with that string |
| Loader.Strings | config/generator/config_generator.go:102-103 | configStr holds a path exactly when register's last write there is a string field, and every such path is a leaf's path |
| Loader.GetString | config/generator/config_generator.go:212-214 | an unknown key reads as the empty text |
| Loader.GetStringReadsLeaf | config/generator/config_generator.go:212-214 | GetString at a string field's path reads its value when register writes nothing later there, neither a string nor a struct field |
| Loader.GetStringShadowedByStruct | config/generator/config_generator.go:212-214 | GetString at a path whose last write is a struct field reads "", even over an earlier string field |
| Loader.SiblingStructHidesString | config/generator/config_generator.go:173-205 | a string field `a` followed by a struct field `a` holding `c`: configStr is exactly {"a.c"} |
| Loader.Begin | config/generator/config_generator.go:83-104 | a cloud loader with a blank address is refused; a non-external loader keeps the defaults; an external start with a bad argument fails with that argument's error; it succeeds exactly when neither happens; the shape never changes, and the string view is Strings of the loaded tree: at each path, the value of the last string field register writes there |
| Loader.MergeLayersKeepShape | config/generator/config_generator.go:93-101 | merging all the layers keeps the tree's shape |
| Loader.BeginLayerOrder | config/generator/config_generator.go:93-101 | each leaf ends with the arguments' non-blank value, else the cloud's when enabled and fetched, else the file's when a path is set and it was read, else the default |
| Loader.ArgumentsWin | config/generator/config_generator.go:100 | a non-blank argument value for a leaf's path always wins |

## Left out

- File and directory listing, file reads and writes, and `os.Create` are
  left out. The operations take the lines of each file, the loader skeleton
  and the argument list as parameters. `Splice.WriteResult` returns the
  spliced lines instead of writing them.
- The operating system's path separator (`runtime.GOOS`) is left out.
  TypeScanner.ScanTypeInfo compares each file's base name, which is given
  directly.
- The cloud fetch, YAML decoding and reading the process arguments are left
  out. The file and cloud layers arrive as decoded key/value maps, or None
  when reading fails. The arguments arrive as a list.
- Reflection (`register`, `getStringSet`, `reflect.ValueOf`) is replaced by
  the record tree `Merge.Node`. Other consequences of dropping reflection:
  - `mergeConfig` panics for a nested type with no generated case; the
    model does not reproduce that panic.
  - The `config` map of `interface{}` values and `GetConfig` are not
    modelled.
- Logging (`fmt.Println`) is left out.
- `Generator.checkConfig` and `initVariable` are left out. The generator's
  `Begin` never calls `checkConfig`.
- `generateFunc` is called twice by the generator's `Begin`. The first
  result is discarded, so the model calls it once.
- Text.ReplaceAll: requires a non-empty pattern. Go's `strings.ReplaceAll` with an empty pattern inserts the replacement between characters, but the source only ever replaces `{$type}`.
- Unicode case mapping and white space are restricted to ASCII. Other
  consequences of this restriction:
  - `strings.TrimSpace` trims ASCII white space only.
  - `ToUpper`/`ToLower` of a first letter change ASCII letters only.
  - Byte slicing of a multi-byte first letter is not modelled.
- Scanner.FindConfigurationsPosition: the source panics at the first unreadable marker. The contract says some unreadable marker's error is reported, not that it is the first one.
- TypeScanner.CombinationType: the contract gives the header and success condition; the field lines in root order are stated by TypeScanner.CombinationTypeLines under newline-free names, not by this member.
- CodeGen.GenerateFunc: the contract states the header; the case order is stated by CodeGen.GenerateFuncCaseOrder for any fixed surrounding texts, and the absence of placeholders by CodeGen.CasesHaveNoPlaceholder.
- Scanner.GetTypeName: the contract only says that a non-declaration line gives the empty name and that a name has no space at either end. The value itself is stated by Scanner.TypeNameBetween and Scanner.DeclarationName.
- CodeGen.GenerateConfigs: the contract states the header. The assignment lines and the closing brace are stated by CodeGen.GenerateConfigsLines.
- CodeGen.GenerateExecute: the contract states the header. The calls in order and the closing brace are stated by CodeGen.GenerateExecuteLines.
- The generated loader reads a field's key as `field.Tag[6:len(field.Tag)-1]` (config/generator/config_generator.go:42 and :180). For a field with no tag, or a tag shorter than seven characters, that slice panics. `Merge.Node` keeps the key itself, so the model has no such panic. TypeScanner.TagKey states when the cut exists.
- `mergeConfig` calls `SetString` on every non-struct field (config/generator/config_generator.go:54). That panics for a field that is not a string. `Merge.Node` holds string leaves only, so this panic is not modelled.
- Imports.GetPackage: the contract does not say when the result is a success rather than ShortPackageLine. Imports.GetPackageOfFirstLine states both cases for the first line containing `package`.
- Imports.ImportScan: the contract states only the case where the scan runs past the last line. Which line ends a scan, when it fails and which paths it yields are stated for every input by Imports.ImportScanSpec.
- The loader skeleton (`ConfigLoaderTemplate`, config/generator/config_generator.go:62-218) is a parameter of Splice.Emit and Splice.Generate. The model does not prove that the fixed skeleton carries each insertion marker exactly once, on lines 106, 107 and 210 of that file. So the model does not show that the marker errors cannot happen in the real program.
- Loader.Strings: `register` fills a Go map by reflection and `getStringSet` iterates it. The model lists register's writes in field order and keeps, per path, the last one. Two string fields share a path when sibling fields carry the same tag or when a tag contains a dot; then the later one wins. A struct field writes a non-string value at its own path, so it erases an earlier string field there.
