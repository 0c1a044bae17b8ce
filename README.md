# j2objc header mapping and protobuf enum bookkeeping, in Dafny

This project models two pieces of j2objc, the Java-to-Objective-C translator.

**HeaderMap** (translator) decides where the Objective-C header of a translated Java type lives, and where a compilation unit's output goes. Its inputs are:

- the output style: `PACKAGE`, `SOURCE` or `NONE`. `SOURCE` has two variant flags, combined jars and included generated sources;
- the fixed list of platform packages;
- a mapping table from qualified type names to header paths.

The table is filled from mapping property files, in list order, and the last write wins. It can be printed back as `key=value` lines. A header is looked up in three levels:

1. an explicit header declared on the type;
2. then the mapping table;
3. then the path computed from the package.

**EnumGenerator** (the protobuf compiler plugin for j2objc) first splits an enum's declared values into canonical values and aliases. A value is canonical when `FindValueByNumber` gives the value itself back. The generator then:

- numbers the canonical values with ordinals in the header;
- counts them for the generated source;
- wraps the source's `names[]` and `int_values[]` initialisers at 80 characters.

Modules:

- `Wrappers`: `Option`.
- `JavaStrings`: the Java string operations the header map calls, `replace(char, char)` and `String.split` with its trailing-empty-string rule. One-character `indexOf` and `lastIndexOf` are included as the building blocks of the model's split and of its `key=value` line reader; the header map itself does not call them.
- `PlatformClassifier`: the platform package set and the `isPlatformPackage` loop.
- `MappingFiles`: merging loaded properties, loading a list of files, and the printed line format.
- `HeaderMapping`: the `HeaderMap` class.
- `RowWrapping`: the greedy row-wrapping loop of `GenerateSource`.
- `EnumGeneration`: the canonical/alias partition and the `EnumGenerator` class.

External inputs are parameters:

- `ElementUtil.getHeader` is a function `TypeBinding -> Option<string>`.
- `File.separatorChar` is a `sep: char` argument.
- `FileUtil.loadProperties` is a function from a resource name to a `LoadOutcome`: the loaded pairs, `NotFound` or `ReadError`.
- `EnumDescriptor::FindValueByNumber` is a function from a number to a value index. Where a lemma needs it, it is constrained only by `FindsByNumber`: the index it returns is a declared value with that number.

## Model

| member | source | states |
|---|---|---|
| JavaStrings.Split | translator/src/main/java/com/google/devtools/j2objc/util/HeaderMap.java:204 | `split` on a single-character delimiter: a string without the delimiter gives itself. Otherwise the result is the delimiter-separated pieces with the trailing empty ones removed: a prefix of all the pieces, every dropped piece is empty, and the last kept piece is non-empty. No piece contains the delimiter. |
| JavaStrings.Replace | translator/src/main/java/com/google/devtools/j2objc/util/HeaderMap.java:193 | `replace(from, to)` keeps the length, changes every `from` to `to` and keeps every other character. |
| PlatformClassifier.IsPlatformPackage | translator/src/main/java/com/google/devtools/j2objc/util/HeaderMap.java:203-213 | Returns true exactly when some dotted prefix of the name, ending at a dot or at the end, is in the platform set. It runs the prefix loop over that set. |
| PlatformClassifier.FindListedPrefix | translator/src/main/java/com/google/devtools/j2objc/util/HeaderMap.java:204-212 | For any set of names that are non-empty and do not end with a dot, the loop over the split pieces returns true exactly when some dotted prefix of the name, ending at a dot or at the end, is in the set. |
| PlatformClassifier.ListedByPieces | translator/src/main/java/com/google/devtools/j2objc/util/HeaderMap.java:203-213 | For a name made of dot-free segments: it has a listed dotted prefix iff one of `seg0`, `seg0.seg1`, … is listed (both directions). |
| PlatformClassifier.ListedSplitPrefix | translator/src/main/java/com/google/devtools/j2objc/util/HeaderMap.java:204-210 | A listed prefix built from the split pieces is a real dotted prefix of the name. |
| PlatformClassifier.NoListedSplitPrefix | translator/src/main/java/com/google/devtools/j2objc/util/HeaderMap.java:204-212 | If no prefix built from the split pieces is listed, no dotted prefix is. The pieces `split` drops cannot matter, because no listed name is empty or ends with a dot. |
| PlatformClassifier.PlatformExamples | translator/src/main/java/com/google/devtools/j2objc/util/HeaderMap.java:47-78 | `java.util` and `com.google.common.collect.testing` are platform packages. |
| PlatformClassifier.ApplicationPackageExample | translator/src/main/java/com/google/devtools/j2objc/util/HeaderMap.java:47-78 | `com.example.app` is not a platform package. |
| PlatformClassifier.SegmentMatchingExample | translator/src/main/java/com/google/devtools/j2objc/util/HeaderMap.java:47-78 | `javafx.scene` is not a platform package: matching is by whole segments, not by substring. |
| MappingFiles.MergeLookup | translator/src/main/java/com/google/devtools/j2objc/util/HeaderMap.java:233-239 | After properties are put into the table one by one, a key is present iff it was before or props has a pair for it. Its value is that of its last pair, or the old value if it has no pair. |
| MappingFiles.MergeAppend | translator/src/main/java/com/google/devtools/j2objc/util/HeaderMap.java:233-239 | Putting `a + b` is putting `a`, then `b`. |
| MappingFiles.AfterLoad | translator/src/main/java/com/google/devtools/j2objc/util/HeaderMap.java:215-231 | With no list configured, a loaded default `mappings.j2objc` is merged into the table, a missing one is ignored silently, and any other read error on it is reported. An explicitly empty list loads nothing and reports nothing. A configured list is loaded as `LoadFiles` describes. |
| MappingFiles.LoadFilesAllLoaded | translator/src/main/java/com/google/devtools/j2objc/util/HeaderMap.java:224-226 | When every listed file loads, nothing is reported, and the table is merged with all the files' pairs in list order. |
| MappingFiles.LoadFilesStopsAtFailure | translator/src/main/java/com/google/devtools/j2objc/util/HeaderMap.java:222-230 | The first listed file that fails is the one reported. The table then holds exactly the pairs of the files before it, and no later file is read. |
| MappingFiles.LaterFileWins | translator/src/main/java/com/google/devtools/j2objc/util/HeaderMap.java:224-226 | Of two listed files that both define a key, the second one's value is kept. |
| MappingFiles.LineRoundTrip | translator/src/main/java/com/google/devtools/j2objc/util/HeaderMap.java:253 | A printed `key=value` line, read back by splitting at its first `=`, gives its key and value when the key has no `=`. |
| MappingFiles.ReloadPrintedTable | translator/src/main/java/com/google/devtools/j2objc/util/HeaderMap.java:241-260 | Reading the printed lines back by splitting each at its first `=`, in whatever order they were printed, rebuilds the table exactly, provided no key contains `=`. |
| HeaderMapping.PackageDirectory | translator/src/main/java/com/google/devtools/j2objc/util/HeaderMap.java:193 | The package directory is the name with every `.` replaced by the separator, plus one trailing separator. Splitting it on the separator gives the package's own segments. |
| HeaderMapping.HeaderMap.constructor | translator/src/main/java/com/google/devtools/j2objc/util/HeaderMap.java:97-108 | Starts with the `PACKAGE` style, both flags off, no mapping files configured and an empty table. |
| HeaderMapping.HeaderMap.SetOutputStyle | translator/src/main/java/com/google/devtools/j2objc/util/HeaderMap.java:110-112 | Sets the style; source directories are used iff the new style is `SOURCE`. |
| HeaderMapping.HeaderMap.SetCombineJars | translator/src/main/java/com/google/devtools/j2objc/util/HeaderMap.java:114-117 | Forces `SOURCE` whatever was set before, and turns on jar combining. The other flag is untouched. |
| HeaderMapping.HeaderMap.SetIncludeGeneratedSources | translator/src/main/java/com/google/devtools/j2objc/util/HeaderMap.java:119-122 | Forces `SOURCE` whatever was set before, and turns on generated sources. The other flag is untouched. |
| HeaderMapping.HeaderMap.SetMappingFiles | translator/src/main/java/com/google/devtools/j2objc/util/HeaderMap.java:124-131 | `""` configures an explicitly empty list. Anything else becomes the comma-split list, and no entry in it contains a comma. |
| HeaderMapping.HeaderMap.SetOutputMappingFile | translator/src/main/java/com/google/devtools/j2objc/util/HeaderMap.java:133-135 | Records the output mapping file, or its absence. |
| HeaderMapping.HeaderMap.UseSourceDirectories | translator/src/main/java/com/google/devtools/j2objc/util/HeaderMap.java:141-143 | True iff the style is `SOURCE`. |
| HeaderMapping.HeaderMap.CombineSourceJars | translator/src/main/java/com/google/devtools/j2objc/util/HeaderMap.java:145-147 | True iff the style is `SOURCE` and jar combining is on. |
| HeaderMapping.HeaderMap.IncludeGeneratedSources | translator/src/main/java/com/google/devtools/j2objc/util/HeaderMap.java:149-151 | True iff the style is `SOURCE` and generated sources are on. |
| HeaderMapping.HeaderMap.OutputDirFromPackage | translator/src/main/java/com/google/devtools/j2objc/util/HeaderMap.java:180-197 | No directory for a missing or unnamed package. A named package gets its package directory (dots replaced by the separator, plus a trailing separator) under the `PACKAGE` style, and a platform package gets it under every style. Any other package gets no directory. |
| HeaderMapping.HeaderMap.Get | translator/src/main/java/com/google/devtools/j2objc/util/HeaderMap.java:153-169 | An explicit header is returned unchanged. Otherwise a mapped header for the qualified name is returned unchanged. Otherwise the header is `name.replace('.', sep) + sep + simpleName + ".h"` for a named package under `PACKAGE` style or a platform package, and `simpleName + ".h"` in every other case. |
| HeaderMapping.HeaderMap.GetMapped | translator/src/main/java/com/google/devtools/j2objc/util/HeaderMap.java:171-174 | Present iff the table has the name, and then equal to its entry. |
| HeaderMapping.HeaderMap.GetOutputPath | translator/src/main/java/com/google/devtools/j2objc/util/HeaderMap.java:176-178 | The main type name alone for a missing or unnamed package, or a non-platform package under `SOURCE` or `NONE`. Under `PACKAGE` style, or for a platform package, the package directory followed by the main type name. |
| HeaderMapping.HeaderMap.Put | translator/src/main/java/com/google/devtools/j2objc/util/HeaderMap.java:199-201 | Afterwards the name maps to the header and every other name's mapping is unchanged. |
| HeaderMapping.HeaderMap.LoadMappingsFromProperties | translator/src/main/java/com/google/devtools/j2objc/util/HeaderMap.java:233-239 | The loop leaves the table equal to the old table merged with the pairs in enumeration order. |
| HeaderMapping.HeaderMap.LoadMappings | translator/src/main/java/com/google/devtools/j2objc/util/HeaderMap.java:215-231 | The table and the reported error are exactly those that `AfterLoad` describes for the configured file list. |
| HeaderMapping.HeaderMap.PrintMappings | translator/src/main/java/com/google/devtools/j2objc/util/HeaderMap.java:241-260 | Writes nothing when no output file is set. Otherwise it writes one `key=value` line per table entry, each key exactly once, in the map's unspecified order. |
| HeaderMapping.LoadFilesStopsHere | translator/src/main/java/com/google/devtools/j2objc/util/HeaderMap.java:224-230 | Returning on the first failing file leaves the state that the whole-list description gives. |
| HeaderMapping.AllLoadedBefore | translator/src/main/java/com/google/devtools/j2objc/util/HeaderMap.java:224-226 | While nothing has been reported, every file read so far loaded. |
| EnumGeneration.CanonicalValues | protobuf/compiler/src/google/protobuf/compiler/j2objc/j2objc_enum.cc:48-55 | The canonical values among the first n declared values are indices below n. |
| EnumGeneration.Aliases | protobuf/compiler/src/google/protobuf/compiler/j2objc/j2objc_enum.cc:48-60 | The aliases among the first n declared values are for indices below n. |
| EnumGeneration.PartitionExact | protobuf/compiler/src/google/protobuf/compiler/j2objc/j2objc_enum.cc:48-61 | A value is canonical iff `FindValueByNumber` of its number gives it back, and is aliased iff not. The two list sizes add up to the value count, so every value lands in exactly one list. |
| EnumGeneration.DeclarationOrder | protobuf/compiler/src/google/protobuf/compiler/j2objc/j2objc_enum.cc:48-59 | Both lists keep declaration order: their value indices strictly increase. |
| EnumGeneration.AliasesRecordFind | protobuf/compiler/src/google/protobuf/compiler/j2objc/j2objc_enum.cc:50-58 | Each alias records what `FindValueByNumber` returned for its own number. |
| EnumGeneration.AliasTargets | protobuf/compiler/src/google/protobuf/compiler/j2objc/j2objc_enum.cc:50-58 | Each alias's canonical value has the alias's number and is itself among the canonical values. |
| EnumGeneration.CanonicalNumbersDistinct | protobuf/compiler/src/google/protobuf/compiler/j2objc/j2objc_enum.cc:50-54 | No two canonical values share a number. |
| EnumGeneration.CanonicalNumbersCover | protobuf/compiler/src/google/protobuf/compiler/j2objc/j2objc_enum.cc:48-61 | Every declared number is the number of some canonical value. |
| EnumGeneration.Itoa | protobuf/compiler/src/google/protobuf/compiler/j2objc/j2objc_enum.cc:174 | The text of a number is non-empty and starts with `-` iff the number is negative. |
| EnumGeneration.ItoaReadsBack | protobuf/compiler/src/google/protobuf/compiler/j2objc/j2objc_enum.cc:174 | After the sign, the text of a number is decimal digits only, which read back in decimal as its absolute value, with no leading zero unless the number is 0. |
| EnumGeneration.DigitsValue | protobuf/compiler/src/google/protobuf/compiler/j2objc/j2objc_enum.cc:174 | The decimal digits of a non-negative number read back as that number, and start with `0` only for zero. |
| EnumGeneration.EnumGenerator.constructor | protobuf/compiler/src/google/protobuf/compiler/j2objc/j2objc_enum.cc:46-62 | The partition loop leaves `canonical_values_` and `aliases_` equal to the canonical values and aliases of all the declared values. |
| EnumGeneration.EnumGenerator.GenerateHeader | protobuf/compiler/src/google/protobuf/compiler/j2objc/j2objc_enum.cc:71-136 | The i-th canonical value gets ordinal i in the `NS_ENUM`, a `#define` of its name to its number, and an enum constant, one each and in order. |
| EnumGeneration.EnumGenerator.CanonicalNames | protobuf/compiler/src/google/protobuf/compiler/j2objc/j2objc_enum.cc:159-160 | The names table lists the canonical values' names in order. |
| EnumGeneration.EnumGenerator.CanonicalNumerals | protobuf/compiler/src/google/protobuf/compiler/j2objc/j2objc_enum.cc:173-174 | The values table lists the canonical values' numbers in decimal, in order. |
| EnumGeneration.EnumGenerator.GenerateSource | protobuf/compiler/src/google/protobuf/compiler/j2objc/j2objc_enum.cc:140-268 | `$count$` is the number of canonical values. The names and int_values tables are the greedy 80-character layouts of their entries, at `name.length() + 5` and `value.length() + 2` characters per entry. |
| RowWrapping.WrapRows | protobuf/compiler/src/google/protobuf/compiler/j2objc/j2objc_enum.cc:158-182 | The `row_chars` loop lays out every entry in order. The first entry always starts a row. No row is empty, and each row fits in 80 characters after its 5-space indent unless it holds a single entry. A row breaks only when the next entry would not fit. |
| RowWrapping.GreedyRowsUnique | protobuf/compiler/src/google/protobuf/compiler/j2objc/j2objc_enum.cc:158-182 | The greedy-layout conditions leave no choice: any two layouts meeting them for the same entries are equal, so they determine the loop's output completely. |

## Left out

- File I/O in `printMappings` and `loadMappings` is left out: `exists`, `mkdirs`, `createNewFile`, `PrintWriter` and their `IOException` path. `PrintMappings` returns the lines it would write instead.
- `java.util.Properties` parsing and escaping is a library format and is not modelled. A loaded file is the sequence of its key/value pairs in enumeration order, and the printed table is read back by splitting each line at its first `=`.
- `HashMap` iteration order is unspecified. `PrintMappings` picks keys by an unconstrained choice and promises no order.
- `ErrorUtil.error` is not modelled as a side effect: `LoadMappings` returns the message it would report.
- `ElementUtil`, `BindingConverter`, `ITypeBinding`, `PackageElement` and `CompilationUnit` are front-end types. They are reduced to the fields `get` and `getOutputPath` read, and the explicit-header lookup is a parameter.
- `File.separatorChar` is a parameter, because it depends on the platform.
- The literal Objective-C template text of `GenerateHeader` and `GenerateSource` is fixed output and is not modelled. Neither are `ClassName`, `CEnumName`, `EnumValueName` and `CollectSourceImports`, which only name things or add one fixed import.
- `SimpleItoa` is a protobuf helper. It is modelled as `Itoa`, the plain decimal form.
- `FindValueByNumber` is uninterpreted. Which of several values that share a number it returns is left open.
- `j2objc_extension.h` is not part of this model: it declares a class and has no logic.
- RowWrapping.WrapRows: `row_chars` is a C++ `int` added to a `size_t`, so it has a fixed width. The model uses unbounded integers and assumes that no row counter overflows.
- HeaderMapping.HeaderMap.PrintMappings: the table is written in the map's iteration order, not sorted by key. A sorted output would be a different behaviour, and the model follows the code.
- PlatformClassifier.IsPlatformPackage: `split("\\.")` takes a regular expression. The model splits on the literal `.` character, which is what that expression matches.
- MappingFiles.ReloadPrintedTable: the table is read back by splitting each line at its first `=`, not by `java.util.Properties`. `printMappings` writes keys and values unescaped, so under `Properties` a line reads back differently when the key holds `:`, whitespace or `\`, the value starts with whitespace or holds `\` (a header path with `\` as separator), or the line starts with `#` or `!`. The round trip is promised only for the split-at-`=` reader.
- MappingFiles.LineRoundTrip: the same reader as above; the escaping rules of `java.util.Properties` are not modelled.
