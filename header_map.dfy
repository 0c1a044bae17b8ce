/**
 * HeaderMap: where the header of a translated Java type lives and where a
 * compilation unit's output goes, under the configured output style, with
 * explicit per-type headers and the mapping table taking precedence.
 */
module HeaderMapping {
  import opened Wrappers
  import opened JavaStrings
  import opened PlatformClassifier
  import opened MappingFiles

  /**
   * HeaderMap.OutputStyleOption: `Package` uses the class's package, like
   * javac; `Source` the relative directory of the input file; `Flat` (NONE in
   * the source) no relative directory at all.
   */
  datatype OutputStyle = Package | Source | Flat

  /** A package element: the unnamed package, or a named one with its dotted name. */
  datatype PackageElement = Unnamed | Named(name: string)

  /**
   * What `get` asks of a type binding: the qualified and simple names of its
   * erasure and its package (None where the front end has no element).
   */
  datatype TypeBinding = TypeBinding(qualifiedName: string, name: string, pkg: Option<PackageElement>)

  /** What `getOutputPath` asks of a compilation unit. */
  datatype CompilationUnit = CompilationUnit(pkg: Option<PackageElement>, mainTypeName: string)

  /**
   * The directory of a package laid out like javac: its name with every dot
   * replaced by the separator, and one trailing separator. Read back on the
   * separator, the directory gives the package's own segments.
   */
  function PackageDirectory(pkgName: string, sep: char): (dir: string)
    ensures |dir| == |pkgName| + 1 && dir[|pkgName|] == sep
    ensures forall i :: 0 <= i < |pkgName| ==> dir[i] == if pkgName[i] == '.' then sep else pkgName[i]
    ensures sep !in pkgName ==> Segments(dir[..|pkgName|], sep) == Segments(pkgName, '.')
  {
    var dir := Replace(pkgName, '.', sep) + [sep];
    assert dir[..|pkgName|] == Replace(pkgName, '.', sep);
    assert sep !in pkgName ==> Segments(dir[..|pkgName|], sep) == Segments(pkgName, '.') by {
      if sep !in pkgName { ReplacePreservesSegments(pkgName, '.', sep); }
    }
    dir
  }

  class HeaderMap {
    var outputStyle: OutputStyle
    /** Variant of Source: sources from jar files combined into one header and one source file. */
    var combineJars: bool
    /** Variant of Source: annotation-generated sources go with the sources they come from. */
    var includeGeneratedSources: bool
    /** None: load the default mapping file; Some(list): load exactly these. */
    var inputMappingFiles: Option<seq<string>>
    var outputMappingFile: Option<string>
    /** Qualified type name to header path. */
    var mappings: map<string, string>

    constructor ()
      ensures outputStyle == Package && !combineJars && !includeGeneratedSources
      ensures inputMappingFiles == None && outputMappingFile == None && mappings == map[]
    {
      outputStyle := Package;
      combineJars := false;
      includeGeneratedSources := false;
      inputMappingFiles := None;
      outputMappingFile := None;
      mappings := map[];
    }

    method SetOutputStyle(style: OutputStyle)
      modifies this`outputStyle
      ensures outputStyle == style
      ensures UseSourceDirectories() <==> style == Source
    {
      outputStyle := style;
    }

    /** Forces the Source style whatever was set before, and asks for jars to be combined. */
    method SetCombineJars()
      modifies this`outputStyle, this`combineJars
      ensures outputStyle == Source && combineJars
      ensures UseSourceDirectories() && CombineSourceJars()
      ensures IncludeGeneratedSources() == includeGeneratedSources
    {
      outputStyle := Source;
      combineJars := true;
    }

    /** Forces the Source style whatever was set before, and asks for generated sources to be included. */
    method SetIncludeGeneratedSources()
      modifies this`outputStyle, this`includeGeneratedSources
      ensures outputStyle == Source && includeGeneratedSources
      ensures UseSourceDirectories() && IncludeGeneratedSources()
      ensures CombineSourceJars() == combineJars
    {
      outputStyle := Source;
      includeGeneratedSources := true;
    }

    /**
     * An empty argument configures an explicitly empty list (no mapping file
     * is loaded, not even the default one); any other is split on commas the
     * way String.split does.
     */
    method SetMappingFiles(fileList: string)
      modifies this`inputMappingFiles
      ensures fileList == [] ==> inputMappingFiles == Some([])
      ensures fileList != [] ==> inputMappingFiles == Some(Split(fileList, ','))
      ensures inputMappingFiles.Some?
      ensures forall i :: 0 <= i < |inputMappingFiles.value| ==> ',' !in inputMappingFiles.value[i]
    {
      if fileList == [] {
        inputMappingFiles := Some([]);
      } else {
        inputMappingFiles := Some(Split(fileList, ','));
      }
    }

    method SetOutputMappingFile(file: Option<string>)
      modifies this`outputMappingFile
      ensures outputMappingFile == file
    {
      outputMappingFile := file;
    }

    /** Output locations follow the input source locations rather than packages. */
    function UseSourceDirectories(): (r: bool)
      reads this
      ensures r <==> outputStyle == Source
    {
      outputStyle == Source
    }

    /** Jars are combined only while the Source style is in force. */
    function CombineSourceJars(): (r: bool)
      reads this
      ensures r <==> UseSourceDirectories() && combineJars
    {
      outputStyle == Source && combineJars
    }

    /** Generated sources are included only while the Source style is in force. */
    function IncludeGeneratedSources(): (r: bool)
      reads this
      ensures r <==> UseSourceDirectories() && includeGeneratedSources
    {
      outputStyle == Source && includeGeneratedSources
    }

    /**
     * HeaderMap.outputDirFromPackage: no directory for a missing or unnamed
     * package; the package directory for a platform package whatever the
     * style; otherwise the package directory under Package and none under
     * Source or Flat.
     */
    function OutputDirFromPackage(pkg: Option<PackageElement>, sep: char): (dir: string)
      reads this
      ensures pkg.None? || pkg.value.Unnamed? ==> dir == ""
      ensures pkg.Some? && pkg.value.Named? && HasPlatformPrefix(pkg.value.name) ==>
        dir == PackageDirectory(pkg.value.name, sep)
      ensures pkg.Some? && pkg.value.Named? && outputStyle == Package ==>
        dir == PackageDirectory(pkg.value.name, sep)
      ensures pkg.Some? && pkg.value.Named? && outputStyle != Package && !HasPlatformPrefix(pkg.value.name) ==>
        dir == ""
    {
      match pkg
      case None => ""
      case Some(Unnamed) => ""
      case Some(Named(name)) =>
        var style := if HasPlatformPrefix(name) then Package else outputStyle;
        match style
        case Package => PackageDirectory(name, sep)
        case _ => ""
    }

    /**
     * HeaderMap.get: an explicit header declared on the type wins; then the
     * mapping for its erased qualified name; otherwise the header is named
     * after the type, in its package's output directory.
     */
    function Get(t: TypeBinding, explicitHeader: TypeBinding -> Option<string>, sep: char): (header: string)
      reads this
      ensures explicitHeader(t).Some? ==> header == explicitHeader(t).value
      ensures explicitHeader(t).None? && GetMapped(t.qualifiedName).Some? ==>
        header == GetMapped(t.qualifiedName).value
      ensures explicitHeader(t).None? && GetMapped(t.qualifiedName).None? ==>
        header == OutputDirFromPackage(t.pkg, sep) + t.name + ".h"
      ensures explicitHeader(t).None? && GetMapped(t.qualifiedName).None? && t.pkg.Some? && t.pkg.value.Named? &&
              (outputStyle == Package || HasPlatformPrefix(t.pkg.value.name)) ==>
        header == Replace(t.pkg.value.name, '.', sep) + [sep] + t.name + ".h"
      ensures explicitHeader(t).None? && GetMapped(t.qualifiedName).None? &&
              (t.pkg.None? || t.pkg.value.Unnamed? || (outputStyle != Package && !HasPlatformPrefix(t.pkg.value.name))) ==>
        header == t.name + ".h"
    {
      match explicitHeader(t)
      case Some(h) => h
      case None =>
        if t.qualifiedName in mappings then mappings[t.qualifiedName]
        else OutputDirFromPackage(t.pkg, sep) + t.name + ".h"
    }

    /** HeaderMap.getMapped: the mapping table's entry for a qualified name, if any. */
    function GetMapped(qualifiedName: string): (r: Option<string>)
      reads this
      ensures r.Some? <==> qualifiedName in mappings
      ensures r.Some? ==> r.value == mappings[qualifiedName]
    {
      if qualifiedName in mappings then Some(mappings[qualifiedName]) else None
    }

    /**
     * HeaderMap.getOutputPath: the main type's name, inside its package's
     * directory when the package is named and either the Package style is in
     * force or it is a platform package.
     */
    function GetOutputPath(unit: CompilationUnit, sep: char): (path: string)
      reads this
      ensures unit.pkg.None? || unit.pkg.value.Unnamed? ==> path == unit.mainTypeName
      ensures unit.pkg.Some? && unit.pkg.value.Named? && (outputStyle == Package || HasPlatformPrefix(unit.pkg.value.name)) ==>
        path == PackageDirectory(unit.pkg.value.name, sep) + unit.mainTypeName
      ensures unit.pkg.Some? && unit.pkg.value.Named? && outputStyle != Package && !HasPlatformPrefix(unit.pkg.value.name) ==>
        path == unit.mainTypeName
    {
      OutputDirFromPackage(unit.pkg, sep) + unit.mainTypeName
    }

    /** HeaderMap.put: the name now maps to the header; every other entry is as it was. */
    method Put(qualifiedName: string, header: string)
      modifies this`mappings
      ensures GetMapped(qualifiedName) == Some(header)
      ensures forall k :: k != qualifiedName ==> GetMapped(k) == old(GetMapped(k))
      ensures mappings == old(mappings)[qualifiedName := header]
    {
      mappings := mappings[qualifiedName := header];
    }

    /** HeaderMap.loadMappingsFromProperties: `put` each loaded pair in enumeration order. */
    method LoadMappingsFromProperties(props: Properties)
      modifies this`mappings
      ensures mappings == Merge(old(mappings), props)
    {
      var i := 0;
      while i < |props|
        invariant 0 <= i <= |props|
        invariant mappings == Merge(old(mappings), props[..i])
      {
        assert props[..i + 1][..i] == props[..i];
        Put(props[i].0, props[i].1);
        i := i + 1;
      }
      assert props[..i] == props;
    }

    /**
     * HeaderMap.loadMappings, with FileUtil.loadProperties passed in as
     * `load`. Returns the message passed to ErrorUtil.error, if one was.
     */
    method LoadMappings(load: string -> LoadOutcome) returns (reported: Option<string>)
      modifies this`mappings
      ensures (mappings, reported) == AfterLoad(inputMappingFiles, old(mappings), load)
    {
      reported := None;
      match inputMappingFiles {
        case None =>
          match load(DefaultHeaderMappingFile) {
            case Loaded(props) => LoadMappingsFromProperties(props);
            case NotFound(_) =>
            case ReadError(message) => reported := Some(message);
          }
        case Some(names) =>
          var i := 0;
          while i < |names|
            invariant 0 <= i <= |names|
            invariant (mappings, None) == LoadFiles(old(mappings), names[..i], load)
          {
            assert names[..i + 1][..i] == names[..i];
            match load(names[i]) {
              case Loaded(props) =>
                LoadMappingsFromProperties(props);
              case NotFound(message) =>
                reported := Some(message);
                LoadFilesStopsHere(old(mappings), names, load, i);
                return;
              case ReadError(message) =>
                reported := Some(message);
                LoadFilesStopsHere(old(mappings), names, load, i);
                return;
            }
            i := i + 1;
          }
          assert names[..i] == names;
      }
    }

    /**
     * HeaderMap.printMappings without the file itself: None when no output
     * file is configured; otherwise the lines written, one `key=value` line
     * per entry, in the map's own (unspecified) iteration order `order`.
     */
    method PrintMappings() returns (written: Option<seq<string>>, ghost order: seq<string>)
      ensures written.Some? <==> outputMappingFile.Some?
      ensures written.Some? ==> PrintedInOrder(written.value, order, mappings)
    {
      order := [];
      if outputMappingFile.None? {
        return None, order;
      }
      var lines: seq<string> := [];
      var remaining := mappings.Keys;
      while remaining != {}
        invariant remaining <= mappings.Keys
        invariant |order| == |lines|
        invariant forall i :: 0 <= i < |order| ==>
          order[i] in mappings && order[i] !in remaining && lines[i] == Line(order[i], mappings[order[i]])
        invariant forall i, j :: 0 <= i < j < |order| ==> order[i] != order[j]
        invariant forall k :: k in mappings && k !in remaining ==> k in order
        decreases remaining
      {
        var k :| k in remaining;
        lines := lines + [Line(k, mappings[k])];
        order := order + [k];
        remaining := remaining - {k};
      }
      return Some(lines), order;
    }
  }

  /**
   * After the first i files of the list have loaded, the loader's early
   * return on file i leaves exactly what LoadFiles describes.
   */
  lemma LoadFilesStopsHere(m: map<string, string>, names: seq<string>, load: string -> LoadOutcome, i: nat)
    requires i < |names| && !load(names[i]).Loaded?
    requires LoadFiles(m, names[..i], load).1 == None
    ensures LoadFiles(m, names, load) == (LoadFiles(m, names[..i], load).0, Some(load(names[i]).message))
  {
    AllLoadedBefore(m, names[..i], load);
    assert forall j :: 0 <= j < i ==> names[..i][j] == names[j];
    LoadFilesStopsAtFailure(m, names, load, i);
    LoadFilesAllLoaded(m, names[..i], load);
  }

  /** When nothing was reported, every file read so far was loaded. */
  lemma {:induction false} AllLoadedBefore(m: map<string, string>, names: seq<string>, load: string -> LoadOutcome)
    requires LoadFiles(m, names, load).1 == None
    ensures forall j :: 0 <= j < |names| ==> load(names[j]).Loaded?
  {
    if names != [] {
      var init := names[..|names| - 1];
      AllLoadedBefore(m, init, load);
      assert forall j :: 0 <= j < |init| ==> init[j] == names[j];
    }
  }
}
