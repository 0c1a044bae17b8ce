/**
 * The header mapping table as it is loaded from and printed to property
 * files: merging loaded properties (last write wins), loading a list of files
 * in order, and the `key=value` line format of the printed table.
 */
module MappingFiles {
  import opened Wrappers
  import opened JavaStrings

  /** A loaded properties object, as its key/value pairs in enumeration order. */
  type Properties = seq<(string, string)>

  /** What FileUtil.loadProperties gives for one resource name. */
  datatype LoadOutcome =
    | Loaded(props: Properties)
    | NotFound(message: string)     // FileNotFoundException
    | ReadError(message: string)    // any other IOException

  /** Loaded when no mapping files are configured; its absence is not an error. */
  const DefaultHeaderMappingFile: string := "mappings.j2objc"

  /** Position of the last pair for key k in props, or -1 when there is none. */
  function LastEntryFor(props: Properties, k: string): (r: int)
    ensures -1 <= r < |props|
    ensures r >= 0 ==> props[r].0 == k
    ensures forall j :: r < j < |props| ==> props[j].0 != k
  {
    if props == [] then -1
    else if props[|props| - 1].0 == k then |props| - 1
    else LastEntryFor(props[..|props| - 1], k)
  }

  /** The table after `put`ting each pair of props in order. */
  function Merge(m: map<string, string>, props: Properties): map<string, string>
  {
    if props == [] then m
    else
      var last := props[|props| - 1];
      Merge(m, props[..|props| - 1])[last.0 := last.1]
  }

  /**
   * Last write wins: after merging, a key holds the value of its last pair in
   * props, or its old value when props has no pair for it.
   */
  lemma {:induction false} MergeLookup(m: map<string, string>, props: Properties, k: string)
    ensures k in Merge(m, props) <==> k in m || LastEntryFor(props, k) >= 0
    ensures k in Merge(m, props) ==>
      Merge(m, props)[k] == if LastEntryFor(props, k) >= 0 then props[LastEntryFor(props, k)].1 else m[k]
  {
    if props != [] {
      var init := props[..|props| - 1];
      MergeLookup(m, init, k);
      if props[|props| - 1].0 != k {
        assert LastEntryFor(props, k) == LastEntryFor(init, k);
      }
    }
  }

  /** Merging a + b is merging a, then b. */
  lemma {:induction false} MergeAppend(m: map<string, string>, a: Properties, b: Properties)
    ensures Merge(m, a + b) == Merge(Merge(m, a), b)
  {
    if b != [] {
      var b' := b[..|b| - 1];
      assert (a + b)[..|a + b| - 1] == a + b';
      MergeAppend(m, a, b');
    } else {
      assert a + b == a;
    }
  }

  /**
   * HeaderMap.loadMappings over an explicit list: each file in order is merged
   * into m; the first one that fails to load is reported and the files after
   * it are not read. The result is the table and the reported message, if any.
   */
  function LoadFiles(m: map<string, string>, names: seq<string>, load: string -> LoadOutcome)
    : (map<string, string>, Option<string>)
  {
    if names == [] then (m, None)
    else
      var (m', err) := LoadFiles(m, names[..|names| - 1], load);
      if err.Some? then (m', err)
      else match load(names[|names| - 1])
        case Loaded(props) => (Merge(m', props), None)
        case NotFound(message) => (m', Some(message))
        case ReadError(message) => (m', Some(message))
  }

  /** The pairs of all the named files, one file after another. */
  function AllProps(names: seq<string>, load: string -> LoadOutcome): Properties
    requires forall i :: 0 <= i < |names| ==> load(names[i]).Loaded?
  {
    if names == [] then []
    else AllProps(names[..|names| - 1], load) + load(names[|names| - 1]).props
  }

  /**
   * HeaderMap.loadMappings: with no list configured, the default file is
   * loaded and its absence ignored; with a list, the files are loaded in order.
   */
  function AfterLoad(inputFiles: Option<seq<string>>, m: map<string, string>, load: string -> LoadOutcome)
    : (r: (map<string, string>, Option<string>))
    ensures inputFiles == Some([]) ==> r == (m, None)
    ensures inputFiles == None && load(DefaultHeaderMappingFile).NotFound? ==> r == (m, None)
    ensures inputFiles == None && load(DefaultHeaderMappingFile).ReadError? ==>
      r == (m, Some(load(DefaultHeaderMappingFile).message))
    ensures inputFiles == None && load(DefaultHeaderMappingFile).Loaded? ==>
      r == (Merge(m, load(DefaultHeaderMappingFile).props), None)
    ensures inputFiles.Some? ==> r == LoadFiles(m, inputFiles.value, load)
  {
    match inputFiles
    case None =>
      (match load(DefaultHeaderMappingFile)
       case Loaded(props) => (Merge(m, props), None)
       case NotFound(_) => (m, None)
       case ReadError(message) => (m, Some(message)))
    case Some(names) => LoadFiles(m, names, load)
  }

  /** When every file loads, nothing is reported and the table is merged with all their pairs in order. */
  lemma {:induction false} LoadFilesAllLoaded(m: map<string, string>, names: seq<string>, load: string -> LoadOutcome)
    requires forall i :: 0 <= i < |names| ==> load(names[i]).Loaded?
    ensures LoadFiles(m, names, load) == (Merge(m, AllProps(names, load)), None)
  {
    if names != [] {
      var init := names[..|names| - 1];
      LoadFilesAllLoaded(m, init, load);
      MergeAppend(m, AllProps(init, load), load(names[|names| - 1]).props);
    }
  }

  /**
   * When file i is the first that fails, its message is the one reported and
   * the table holds exactly the pairs of the files before it.
   */
  lemma {:induction false} LoadFilesStopsAtFailure(m: map<string, string>, names: seq<string>, load: string -> LoadOutcome, i: nat)
    requires i < |names|
    requires forall j :: 0 <= j < i ==> load(names[j]).Loaded?
    requires !load(names[i]).Loaded?
    ensures LoadFiles(m, names, load) == (Merge(m, AllProps(names[..i], load)), Some(load(names[i]).message))
  {
    var init := names[..|names| - 1];
    if |names| == i + 1 {
      assert init == names[..i];
      LoadFilesAllLoaded(m, init, load);
    } else {
      assert init[..i] == names[..i];
      LoadFilesStopsAtFailure(m, init, load, i);
    }
  }

  /**
   * Of two files that both define a key, the second one's value is the one
   * the table keeps.
   */
  lemma LaterFileWins(m: map<string, string>, a: string, b: string, load: string -> LoadOutcome, k: string)
    requires load(a).Loaded? && load(b).Loaded?
    requires LastEntryFor(load(b).props, k) >= 0
    ensures var (table, err) := LoadFiles(m, [a, b], load);
      err == None && k in table && table[k] == load(b).props[LastEntryFor(load(b).props, k)].1
  {
    LoadFilesAllLoaded(m, [a, b], load);
    assert [a, b][..1] == [a];
    assert [a][..0] == [];
    assert AllProps([a], load) == load(a).props;
    assert AllProps([a, b], load) == load(a).props + load(b).props;
    MergeAppend(m, load(a).props, load(b).props);
    MergeLookup(Merge(m, load(a).props), load(b).props, k);
  }

  /** One line of the printed table (HeaderMap.printMappings). */
  function Line(key: string, value: string): string {
    key + "=" + value
  }

  /** Reads a line back: the key is what precedes the first `=`, the value what follows it. */
  function ParseLine(line: string): (string, string) {
    var i := IndexOf(line, '=');
    if i < 0 then (line, "") else (line[..i], line[i + 1..])
  }

  /** A printed line reads back as its key and value whenever the key has no `=`. */
  lemma LineRoundTrip(key: string, value: string)
    requires '=' !in key
    ensures ParseLine(Line(key, value)) == (key, value)
  {
    var l := Line(key, value);
    IndexAfterPrefix(key, '=', value);
    assert l[..|key|] == key;
    assert l[|key| + 1..] == value;
  }

  /** Every line read back, in order. */
  function ParseAll(lines: seq<string>): (props: Properties)
    ensures |props| == |lines|
    ensures forall i :: 0 <= i < |lines| ==> props[i] == ParseLine(lines[i])
  {
    seq(|lines|, i requires 0 <= i < |lines| => ParseLine(lines[i]))
  }

  /**
   * lines is the table printed in the key order `order`: one line per entry,
   * each key exactly once.
   */
  ghost predicate PrintedInOrder(lines: seq<string>, order: seq<string>, m: map<string, string>) {
    && |order| == |lines|
    && (forall i :: 0 <= i < |order| ==> order[i] in m && lines[i] == Line(order[i], m[order[i]]))
    && (forall i, j :: 0 <= i < j < |order| ==> order[i] != order[j])
    && (forall k :: k in m ==> k in order)
  }

  /**
   * Round trip: reading the printed lines back, in whatever order they were
   * printed, rebuilds the table, provided no key contains `=`.
   */
  lemma ReloadPrintedTable(m: map<string, string>, lines: seq<string>, order: seq<string>)
    requires forall k :: k in m ==> '=' !in k
    requires PrintedInOrder(lines, order, m)
    ensures Merge(map[], ParseAll(lines)) == m
  {
    var props := ParsePrinted(m, lines, order);
    var r := Merge(map[], props);
    forall k ensures (k in r <==> k in m) && (k in r ==> r[k] == m[k]) {
      ReloadKey(m, props, order, k);
    }
  }

  /** Each printed line reads back as the entry it was printed from. */
  lemma ParsePrinted(m: map<string, string>, lines: seq<string>, order: seq<string>) returns (props: Properties)
    requires forall k :: k in m ==> '=' !in k
    requires PrintedInOrder(lines, order, m)
    ensures props == ParseAll(lines) && |props| == |order|
    ensures forall i :: 0 <= i < |props| ==> order[i] in m && props[i] == (order[i], m[order[i]])
  {
    props := ParseAll(lines);
    forall i | 0 <= i < |props| ensures props[i] == (order[i], m[order[i]]) {
      LineRoundTrip(order[i], m[order[i]]);
    }
  }

  /** Merging the entries of m, each key once, in any order, gives each key its value in m. */
  lemma ReloadKey(m: map<string, string>, props: Properties, order: seq<string>, k: string)
    requires |props| == |order|
    requires forall i :: 0 <= i < |props| ==> order[i] in m && props[i] == (order[i], m[order[i]])
    requires forall k :: k in m ==> k in order
    ensures var r := Merge(map[], props); (k in r <==> k in m) && (k in r ==> r[k] == m[k])
  {
    MergeLookup(map[], props, k);
    if k in m {
      var i :| 0 <= i < |order| && order[i] == k;
      assert props[i].0 == k;
    }
  }
}
