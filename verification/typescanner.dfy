/**
 The type scanner: it collects the marked struct declarations of every file,
 keeps the ones no other collected type refers to (the roots), and writes
 the aggregate `ApplicationConfig` struct with one tagged field per root.
 */
module TypeScanner {
  import opened Results
  import opened Text
  import opened Utils
  import opened Assoc
  import opened Scanner
  import opened Imports

  /** Type name to its declaration block, as typeMap holds it. */
  type TypeMap = map<string, seq<string>>

  // ---------------------------------------------------------------------
  // Containment and roots

  /** Some line of the block has `b` as one of its single-space-separated
      words. */
  ghost predicate Mentions(block: seq<string>, b: string) {
    exists i :: 0 <= i < |block| && b in Split(block[i], ' ')
  }

  /** ContainsType(a, b): `a` is a collected type whose block mentions `b`
      as a whole word. An unknown `a` has no block and contains nothing. */
  ghost predicate ContainsType(tm: TypeMap, a: string, b: string) {
    a in tm && Mentions(tm[a], b)
  }

  /** ContainsType as the source computes it: a scan over the block's lines
      and each line's words, stopping at the first match. */
  method ContainsTypeScan(tm: TypeMap, a: string, b: string) returns (r: bool)
    ensures r <==> ContainsType(tm, a, b)
  {
    if a !in tm {
      return false;
    }
    var info := tm[a];
    var i := 0;
    while i < |info|
      invariant 0 <= i <= |info|
      invariant forall k :: 0 <= k < i ==> b !in Split(info[k], ' ')
    {
      var words := Split(info[i], ' ');
      var j := 0;
      while j < |words|
        invariant 0 <= j <= |words|
        invariant forall l :: 0 <= l < j ==> words[l] != b
      {
        if words[j] == b {
          assert b in Split(info[i], ' ');
          return true;
        }
        j := j + 1;
      }
      assert b !in words;
      i := i + 1;
    }
    return false;
  }

  /** A root: a collected type that no other collected type contains. */
  ghost predicate IsRoot(tm: TypeMap, t: string) {
    t in tm && forall u :: u in tm && u != t ==> !ContainsType(tm, u, t)
  }

  /** Some type among the first `i` enumerated, other than `t`, contains `t`. */
  ghost predicate ContainedBefore(tm: TypeMap, names: seq<string>, i: int, t: string)
    requires 0 <= i <= |names|
  {
    exists k :: 0 <= k < i && names[k] != t && ContainsType(tm, names[k], t)
  }

  lemma ContainedBeforeNext(tm: TypeMap, names: seq<string>, i: nat, t: string)
    requires i < |names|
    ensures ContainedBefore(tm, names, i + 1, t) <==>
      ContainedBefore(tm, names, i, t) || (names[i] != t && ContainsType(tm, names[i], t))
  {
    if ContainedBefore(tm, names, i + 1, t) && !ContainedBefore(tm, names, i, t) {
      var k :| 0 <= k < i + 1 && names[k] != t && ContainsType(tm, names[k], t);
      assert k == i;
    }
  }

  /** One pass of getTopType's inner loop for the container `names[i]`:
      every other enumerated type it contains is set to -1. */
  method MarkContained(tm: TypeMap, names: seq<string>, i: nat, order: map<string, int>)
    returns (out: map<string, int>)
    requires i < |names|
    requires forall n :: n in names <==> n in tm
    requires order.Keys == tm.Keys
    ensures out.Keys == order.Keys
    ensures forall t :: t in out ==> (out[t] == -1 <==>
      order[t] == -1 || (names[i] != t && ContainsType(tm, names[i], t)))
    ensures forall t :: t in out && out[t] != -1 ==> out[t] == order[t]
  {
    out := order;
    var j := 0;
    while j < |names|
      invariant 0 <= j <= |names|
      invariant out.Keys == order.Keys
      invariant forall t :: t in out ==> (out[t] == -1 <==>
        order[t] == -1 || (names[i] != t && ContainsType(tm, names[i], t) && t in names[..j]))
      invariant forall t :: t in out && out[t] != -1 ==> out[t] == order[t]
    {
      assert names[..j + 1] == names[..j] + [names[j]];
      if names[i] != names[j] {
        var c := ContainsTypeScan(tm, names[i], names[j]);
        if c {
          out := out[names[j] := -1];
        }
      }
      j := j + 1;
    }
    assert names[..j] == names;
  }

  /** getTopType. `names` is the order in which the source's map iteration
      happens to visit the collected types; every type starts with order 0
      and is set to -1 once another type is found to contain it. The result
      is the same set whatever the visiting order. */
  method GetTopType(tm: TypeMap, names: seq<string>) returns (top: set<string>)
    requires forall n :: n in names <==> n in tm
    ensures forall t :: t in top <==> IsRoot(tm, t)
  {
    var order: map<string, int> := map n | n in tm :: 0;
    var i := 0;
    while i < |names|
      invariant 0 <= i <= |names|
      invariant order.Keys == tm.Keys
      invariant forall t :: t in order ==> order[t] == 0 || order[t] == -1
      invariant forall t :: t in order ==> (order[t] == -1 <==> ContainedBefore(tm, names, i, t))
    {
      order := MarkContained(tm, names, i, order);
      forall t | t in order ensures order[t] == -1 <==> ContainedBefore(tm, names, i + 1, t) {
        ContainedBeforeNext(tm, names, i, t);
      }
      i := i + 1;
    }
    top := set k | k in order && order[k] == 0;
    RootsAfterAllPasses(tm, names, order);
  }

  /** After the pass of every enumerated type, the types still at 0 are
      exactly the roots. */
  lemma RootsAfterAllPasses(tm: TypeMap, names: seq<string>, order: map<string, int>)
    requires forall n :: n in names <==> n in tm
    requires order.Keys == tm.Keys
    requires forall t :: t in order ==> order[t] == 0 || order[t] == -1
    requires forall t :: t in order ==> (order[t] == -1 <==> ContainedBefore(tm, names, |names|, t))
    ensures forall t :: (t in order && order[t] == 0) <==> IsRoot(tm, t)
  {
    forall t | t in tm && !IsRoot(tm, t) ensures ContainedBefore(tm, names, |names|, t) {
      var u :| u in tm && u != t && ContainsType(tm, u, t);
      var k :| 0 <= k < |names| && names[k] == u;
    }
  }

  /** A type that mentions itself stays a root: the source skips the pair
      of a type with itself. */
  lemma SelfContainmentKeepsRoot(tm: TypeMap, t: string)
    requires t in tm && ContainsType(tm, t, t)
    requires forall u :: u in tm && u != t ==> !ContainsType(tm, u, t)
    ensures IsRoot(tm, t)
  {
  }

  /** Two types that contain each other are both excluded from the roots;
      the cycle is not reported. */
  lemma CycleExcluded(tm: TypeMap, a: string, b: string)
    requires a != b && ContainsType(tm, a, b) && ContainsType(tm, b, a)
    ensures !IsRoot(tm, a) && !IsRoot(tm, b)
  {
  }

  // ---------------------------------------------------------------------
  // The aggregate struct

  const StructHeader := "\npackage config\ntype ApplicationConfig struct{\n"
  const StructFooter := "}\nvar applicationConfig ApplicationConfig\n\nfunc GetApplicationConfig() ApplicationConfig{\nreturn applicationConfig\n}\n"

  /** The tag text between the backticks: `yaml:"alias"`. */
  function TagText(alias: string): string {
    "yaml:\"" + alias + "\""
  }

  /** The generated loader's `field.Tag[6 : len(field.Tag)-1]`; a tag
      shorter than seven characters cannot be cut. */
  function TagKey(tag: string): (r: Option<string>)
    ensures r.Some? <==> |tag| >= 7
    ensures r.Some? ==> |r.value| == |tag| - 7
  {
    if |tag| < 7 then None else Some(tag[6..|tag| - 1])
  }

  /** The loader reads back exactly the alias the type scanner wrote. */
  lemma TagRoundTrip(alias: string)
    ensures TagKey(TagText(alias)) == Some(alias)
  {
    assert TagText(alias)[6..|TagText(alias)| - 1] == alias;
  }

  /** One field of ApplicationConfig: the capitalised alias, two spaces,
      the type name and the tag. */
  function FieldLine(name: string, alias: string): string
    requires |alias| > 0
  {
    UpperFirst(alias) + "  " + name + " `" + TagText(alias) + "`"
  }

  /** The tag of a field line is the text between its first and last
      backtick. */
  function FieldTag(line: string): (r: Option<string>)
  {
    var first := IndexOf(line, "`");
    var last := LastIndexOfChar(line, '`');
    if first == -1 || first >= last then None else Some(line[first + 1..last])
  }

  /** Reading a generated field line's tag back yields its alias, as long
      as neither the name nor the alias contains a backtick. */
  lemma FieldLineRoundTrip(name: string, alias: string)
    requires |alias| > 0 && '`' !in name && '`' !in alias
    ensures FieldTag(FieldLine(name, alias)).Some?
    ensures TagKey(FieldTag(FieldLine(name, alias)).value) == Some(alias)
  {
    var line := FieldLine(name, alias);
    var pre := UpperFirst(alias) + "  " + name + " ";
    var tag := TagText(alias);
    assert line == pre + "`" + tag + "`";
    forall i | 0 <= i < |pre| ensures pre[i] != '`' {
      if i == 0 {
        assert pre[0] == ToUpperChar(alias[0]);
      } else if i < |alias| {
        assert pre[i] == alias[i];
      } else if i >= |alias| + 2 && i < |alias| + 2 + |name| {
        assert pre[i] == name[i - |alias| - 2];
      }
    }
    assert line[..|pre|] == pre;
    IndexOfChar(line, '`', |pre|);
    assert "`" == ['`'];
    var last := |pre| + 1 + |tag|;
    assert line[last] == '`';
    assert line[|pre| + 1..last] == tag;
    TagRoundTrip(alias);
  }

  /** A field line is a single line when its name and alias are. */
  lemma FieldLineSingle(name: string, alias: string)
    requires |alias| > 0 && '\n' !in name && '\n' !in alias
    ensures '\n' !in FieldLine(name, alias)
  {
    var line := FieldLine(name, alias);
    var pre := UpperFirst(alias) + "  " + name + " `";
    assert line == pre + TagText(alias) + "`";
    forall i | 0 <= i < |line| ensures line[i] != '\n' {
      if i == 0 {
        assert line[0] == ToUpperChar(alias[0]);
      } else if i < |alias| {
        assert line[i] == alias[i];
      } else if |alias| + 2 <= i < |alias| + 2 + |name| {
        assert line[i] == name[i - |alias| - 2];
      } else if |pre| + 6 <= i < |pre| + 6 + |alias| {
        assert line[i] == alias[i - |pre| - 6];
      }
    }
  }

  /** The field lines of the roots, in root order, or the first root with
      no (or an empty) alias, which the source slices. */
  function FieldLines(roots: seq<string>, aliases: map<string, string>): (r: Result<seq<string>>)
    ensures r.Ok? <==> forall k :: 0 <= k < |roots| ==> roots[k] in aliases && aliases[roots[k]] != ""
    ensures r.Ok? ==> |r.value| == |roots|
    ensures r.Ok? ==> forall k :: 0 <= k < |roots| ==> r.value[k] == FieldLine(roots[k], aliases[roots[k]])
    ensures r.Fail? ==> exists k :: 0 <= k < |roots| && r.error == EmptyAlias(roots[k])
  {
    if |roots| == 0 then Ok([])
    else
      var t := roots[0];
      var rest := FieldLines(roots[1..], aliases);
      assert forall k :: 1 <= k < |roots| ==> roots[k] == roots[1..][k - 1];
      if t !in aliases || aliases[t] == "" then Fail(EmptyAlias(t))
      else if rest.Fail? then
        assert exists k :: 1 <= k < |roots| && rest.error == EmptyAlias(roots[k]);
        rest
      else Ok([FieldLine(t, aliases[t])] + rest.value)
  }

  /** combinationType: the ApplicationConfig declaration with one field
      line per root, in root order, between the fixed header and footer. */
  function CombinationType(roots: seq<string>, aliases: map<string, string>): (r: Result<string>)
    ensures r.Ok? <==> forall k :: 0 <= k < |roots| ==> roots[k] in aliases && aliases[roots[k]] != ""
    ensures r.Ok? ==> HasPrefix(r.value, StructHeader)
  {
    var fields :- FieldLines(roots, aliases);
    Ok(StructHeader + Terminated(fields) + StructFooter)
  }

  /** Read line by line after the fixed header, the generated declaration
      holds one field line per root, in root order, and then the footer's
      lines: the fields of the roots, and only they, appear, each carrying
      its alias in its tag. */
  lemma CombinationTypeLines(roots: seq<string>, aliases: map<string, string>)
    requires forall k :: 0 <= k < |roots| ==> roots[k] in aliases && aliases[roots[k]] != ""
    requires forall k :: 0 <= k < |roots| ==> '\n' !in roots[k] && '\n' !in aliases[roots[k]]
    ensures var v := CombinationType(roots, aliases).value;
      var ls := Split(v[|StructHeader|..], '\n');
      && |ls| == |roots| + |Split(StructFooter, '\n')|
      && (forall k :: 0 <= k < |roots| ==> ls[k] == FieldLine(roots[k], aliases[roots[k]]))
      && ls[|roots|..] == Split(StructFooter, '\n')
  {
    var fields := FieldLines(roots, aliases).value;
    forall k | 0 <= k < |fields| ensures '\n' !in fields[k] {
      FieldLineSingle(roots[k], aliases[roots[k]]);
    }
    CombinationTypeText(roots, aliases);
    LinesAfterHeader(StructHeader, fields, StructFooter);
  }

  /** Header, newline-terminated lines and footer, read line by line after
      the header: the lines, then the footer's pieces. */
  lemma LinesAfterHeader(h: string, fields: seq<string>, footer: string)
    requires forall k :: 0 <= k < |fields| ==> '\n' !in fields[k]
    ensures var ls := Split((h + Terminated(fields) + footer)[|h|..], '\n');
      && |ls| == |fields| + |Split(footer, '\n')|
      && (forall k :: 0 <= k < |fields| ==> ls[k] == fields[k])
      && ls[|fields|..] == Split(footer, '\n')
  {
    DropHeader(h, Terminated(fields) + footer);
    assert h + Terminated(fields) + footer == h + (Terminated(fields) + footer);
    SplitTerminated(fields, footer);
    assert (fields + Split(footer, '\n'))[|fields|..] == Split(footer, '\n');
  }

  lemma DropHeader(h: string, rest: string)
    ensures (h + rest)[|h|..] == rest
  {
  }

  lemma CombinationTypeText(roots: seq<string>, aliases: map<string, string>)
    requires forall k :: 0 <= k < |roots| ==> roots[k] in aliases && aliases[roots[k]] != ""
    ensures FieldLines(roots, aliases).Ok?
    ensures CombinationType(roots, aliases) == Ok(StructHeader + Terminated(FieldLines(roots, aliases).value) + StructFooter)
  {
  }

  // ---------------------------------------------------------------------
  // Aggregation over files

  /** What GetConfigurations extracts from one file. */
  datatype FileInfo = FileInfo(blocks: seq<seq<string>>, imports: seq<string>, aliases: map<string, string>)

  /** GetConfigurations over the already normalised lines of one file: the
      marked blocks, the imports and the aliases. The package name is read
      as well, so a file without a package clause fails. */
  function GetConfigurations(lines: seq<string>): (r: Result<FileInfo>)
  {
    var indexes :- FindConfigurationsPosition(lines);
    var conf :- GetConfiguration(lines, indexes);
    var _ :- GetPackage(lines);
    var imports :- GetImports(lines);
    Ok(FileInfo(conf.types, imports, conf.aliases))
  }

  /** The typeMap assignments of one file: each block under its own type
      name, read from the block's first line. */
  function BlockEntries(blocks: seq<seq<string>>): (r: seq<Option<(string, seq<string>)>>)
    ensures |r| == |blocks|
    ensures forall k :: 0 <= k < |blocks| && |blocks[k]| > 0 ==>
      r[k] == Some((GetTypeName(blocks[k][0]), blocks[k]))
  {
    seq(|blocks|, k requires 0 <= k < |blocks| =>
      if |blocks[k]| > 0 then Some((GetTypeName(blocks[k][0]), blocks[k])) else None)
  }

  /** The type scanner's accumulated state. */
  datatype ScanState = ScanState(
    imports: set<string>,
    typeMap: TypeMap,
    orderMap: map<string, int>,
    aliases: map<string, string>)

  const LoaderFile := "config_loader.go"

  /** Block `k` is non-empty and its first line names type `t`. */
  ghost predicate DeclaresBlock(blocks: seq<seq<string>>, k: int, t: string) {
    0 <= k < |blocks| && |blocks[k]| > 0 && GetTypeName(blocks[k][0]) == t
  }

  /** Block `k` declares `t` and no later block does. */
  ghost predicate LastBlockOf(blocks: seq<seq<string>>, k: int, t: string) {
    DeclaresBlock(blocks, k, t) && forall j :: k < j < |blocks| ==> !DeclaresBlock(blocks, j, t)
  }

  /** Some block declares `t`. */
  ghost predicate Declared(blocks: seq<seq<string>>, t: string) {
    exists k :: DeclaresBlock(blocks, k, t)
  }

  /** The blocks keyed by type name: one key per declared type, holding the
      last block that declares it. */
  lemma BlocksByName(blocks: seq<seq<string>>)
    ensures forall t :: t in FromEntries(BlockEntries(blocks)) <==> Declared(blocks, t)
    ensures forall k, t :: LastBlockOf(blocks, k, t) ==>
      t in FromEntries(BlockEntries(blocks)) && FromEntries(BlockEntries(blocks))[t] == blocks[k]
  {
    var es := BlockEntries(blocks);
    forall t | t in FromEntries(es) ensures Declared(blocks, t) {
      var i :| 0 <= i < |es| && es[i].Some? && es[i].value.0 == t;
      assert DeclaresBlock(blocks, i, t);
    }
    forall t | Declared(blocks, t) ensures t in FromEntries(es) {
      var k :| DeclaresBlock(blocks, k, t);
      assert es[k].Some? && es[k].value.0 == t;
    }
    FromEntriesLastWins(es);
    forall k, t | LastBlockOf(blocks, k, t) ensures LastFor(es, k) {
      forall j | k < j < |es| && es[j].Some? ensures es[j].value.0 != es[k].value.0 {
        assert !DeclaresBlock(blocks, j, t);
      }
    }
  }

  /** The state after one more file: its imports are added, its blocks and
      aliases overwrite earlier ones of the same name, and every type it
      declares gets order 0. */
  function AddFile(s: ScanState, info: FileInfo): (r: ScanState)
    ensures forall p :: p in r.imports <==> p in s.imports || p in info.imports
    ensures forall t :: t in r.typeMap <==> t in s.typeMap || Declared(info.blocks, t)
    ensures forall k, t :: LastBlockOf(info.blocks, k, t) ==> t in r.typeMap && r.typeMap[t] == info.blocks[k]
    ensures forall t :: t in s.typeMap && !Declared(info.blocks, t) ==> t in r.typeMap && r.typeMap[t] == s.typeMap[t]
    ensures forall t :: t in r.orderMap <==> t in s.orderMap || Declared(info.blocks, t)
    ensures forall t :: Declared(info.blocks, t) ==> t in r.orderMap && r.orderMap[t] == 0
    ensures forall t :: t in s.orderMap && !Declared(info.blocks, t) ==> t in r.orderMap && r.orderMap[t] == s.orderMap[t]
    ensures forall t :: t in r.aliases <==> t in s.aliases || t in info.aliases
    ensures forall t :: t in info.aliases ==> t in r.aliases && r.aliases[t] == info.aliases[t]
    ensures forall t :: t in s.aliases && t !in info.aliases ==> t in r.aliases && r.aliases[t] == s.aliases[t]
  {
    ScanState(
      s.imports + (set p | p in info.imports),
      AddBlocks(s.typeMap, info.blocks),
      AddOrders(s.orderMap, info.blocks),
      s.aliases + info.aliases)
  }

  /** A file's blocks keyed by type name, overwriting earlier entries. */
  function AddBlocks(tm: TypeMap, blocks: seq<seq<string>>): (r: TypeMap)
    ensures forall t :: t in r <==> t in tm || Declared(blocks, t)
    ensures forall k, t :: LastBlockOf(blocks, k, t) ==> t in r && r[t] == blocks[k]
    ensures forall t :: t in tm && !Declared(blocks, t) ==> t in r && r[t] == tm[t]
  {
    BlocksByName(blocks);
    tm + FromEntries(BlockEntries(blocks))
  }

  /** Order 0 for every type a file declares, the rest unchanged. */
  function AddOrders(om: map<string, int>, blocks: seq<seq<string>>): (r: map<string, int>)
    ensures forall t :: t in r <==> t in om || Declared(blocks, t)
    ensures forall t :: Declared(blocks, t) ==> t in r && r[t] == 0
    ensures forall t :: t in om && !Declared(blocks, t) ==> t in r && r[t] == om[t]
  {
    BlocksByName(blocks);
    om + ZeroOrders(FromEntries(BlockEntries(blocks)).Keys)
  }

  function ZeroOrders(names: set<string>): (m: map<string, int>)
    ensures m.Keys == names
    ensures forall t :: t in m ==> m[t] == 0
  {
    map n | n in names :: 0
  }

  /** scanTypeInfo over named files, each given by its normalised lines. The
      generated loader's own file is skipped. */
  function ScanTypeInfo(files: seq<(string, seq<string>)>): (r: Result<ScanState>)
    decreases |files|
  {
    if |files| == 0 then Ok(ScanState({}, map[], map[], map[]))
    else
      var s :- ScanTypeInfo(files[..|files| - 1]);
      var (name, lines) := files[|files| - 1];
      if name == LoaderFile then Ok(s)
      else
        var info :- GetConfigurations(lines);
        Ok(AddFile(s, info))
  }

  /** Every collected type has order 0 and nothing else has an order. */
  lemma {:induction false} ScanTypeInfoOrders(files: seq<(string, seq<string>)>)
    requires ScanTypeInfo(files).Ok?
    ensures var s := ScanTypeInfo(files).value;
      s.orderMap.Keys == s.typeMap.Keys && forall n :: n in s.orderMap ==> s.orderMap[n] == 0
    decreases |files|
  {
    if |files| > 0 {
      ScanTypeInfoOrders(files[..|files| - 1]);
    }
  }

  /** The loader's own file contributes nothing. */
  lemma ScanTypeInfoSkipsLoader(files: seq<(string, seq<string>)>, lines: seq<string>)
    ensures ScanTypeInfo(files + [(LoaderFile, lines)]) == ScanTypeInfo(files)
  {
    assert (files + [(LoaderFile, lines)])[..|files|] == files;
  }

  /** A later file's type of the same name replaces the earlier block. */
  lemma ScanTypeInfoLaterWins(files: seq<(string, seq<string>)>, name: string, lines: seq<string>)
    requires name != LoaderFile
    requires ScanTypeInfo(files).Ok? && GetConfigurations(lines).Ok?
    ensures var s := ScanTypeInfo(files + [(name, lines)]);
      var added := FromEntries(BlockEntries(GetConfigurations(lines).value.blocks));
      && s.Ok?
      && (forall t :: t in added ==> s.value.typeMap[t] == added[t])
      && (forall t :: t in ScanTypeInfo(files).value.typeMap && t !in added ==>
            s.value.typeMap[t] == ScanTypeInfo(files).value.typeMap[t])
    ensures var s := ScanTypeInfo(files + [(name, lines)]);
      var info := GetConfigurations(lines).value;
      && s.Ok?
      && (forall k, t :: LastBlockOf(info.blocks, k, t) ==> s.value.typeMap[t] == info.blocks[k])
      && (forall t :: t in info.aliases ==> s.value.aliases[t] == info.aliases[t])
      && (forall t :: t in ScanTypeInfo(files).value.aliases && t !in info.aliases ==>
            s.value.aliases[t] == ScanTypeInfo(files).value.aliases[t])
  {
    assert (files + [(name, lines)])[..|files|] == files;
  }

  // ---------------------------------------------------------------------
  // The whole run

  /** Every root has a usable alias: present and not empty. */
  ghost predicate RootsAliased(s: ScanState) {
    forall t :: IsRoot(s.typeMap, t) ==> t in s.aliases && s.aliases[t] != ""
  }

  /** `text` is the aggregate declaration for some listing of the roots,
      each root listed once. */
  ghost predicate Aggregated(s: ScanState, text: string) {
    exists roots ::
      && (forall t :: t in roots <==> IsRoot(s.typeMap, t))
      && (forall i, j :: 0 <= i < j < |roots| ==> roots[i] != roots[j])
      && CombinationType(roots, s.aliases) == Ok(text)
  }

  /** getTopType followed by combinationType: the roots of the collected
      types, listed in whatever order the map iteration takes, written out
      as the fields of the aggregate declaration. */
  method Aggregate(s: ScanState) returns (r: Result<string>)
    ensures r.Ok? <==> RootsAliased(s)
    ensures r.Ok? ==> Aggregated(s, r.value)
  {
    var names := SomeListing(s.typeMap.Keys);
    var top := GetTopType(s.typeMap, names);
    var roots := SomeListing(top);
    RootsAliasedListing(s, roots);
    r := CombinationType(roots, s.aliases);
    if r.Ok? {
      assert Aggregated(s, r.value) by {
        assert CombinationType(roots, s.aliases) == Ok(r.value);
      }
    }
  }

  /** Over a listing of the roots, every root having an alias is every
      listed name having one. */
  lemma RootsAliasedListing(s: ScanState, roots: seq<string>)
    requires forall t :: t in roots <==> IsRoot(s.typeMap, t)
    ensures RootsAliased(s) <==> forall k :: 0 <= k < |roots| ==> roots[k] in s.aliases && s.aliases[roots[k]] != ""
  {
    if forall k :: 0 <= k < |roots| ==> roots[k] in s.aliases && s.aliases[roots[k]] != "" {
      forall t | IsRoot(s.typeMap, t) ensures t in s.aliases && s.aliases[t] != "" {
        var k :| 0 <= k < |roots| && roots[k] == t;
      }
    }
  }

  /** TypeScanner.Begin over the files already read: a blank directory is
      refused; otherwise the files are scanned and the aggregate declaration
      written. */
  method Begin(configDir: string, files: seq<(string, seq<string>)>) returns (r: Result<string>)
    ensures IsBlank(configDir) ==> r == Fail(BlankConfigDir)
    ensures !IsBlank(configDir) && ScanTypeInfo(files).Fail? ==> r == Fail(ScanTypeInfo(files).error)
    ensures r.Ok? <==> !IsBlank(configDir) && ScanTypeInfo(files).Ok? && RootsAliased(ScanTypeInfo(files).value)
    ensures r.Ok? ==> Aggregated(ScanTypeInfo(files).value, r.value)
  {
    if IsBlank(configDir) {
      return Fail(BlankConfigDir);
    }
    var scanned := ScanTypeInfo(files);
    if scanned.Fail? {
      return Fail(scanned.error);
    }
    r := Aggregate(scanned.value);
  }
}
