/**
 The generated loader's start-up: the `-key=value` argument parser, the
 order in which the configuration layers are merged over the defaults, and
 the flat string view that GetString reads. The file and cloud layers
 arrive as already-decoded key/value maps, or as None when reading them
 fails, which the loader silently ignores.
 */
module Loader {
  import opened Results
  import opened Text
  import opened Utils
  import opened Assoc
  import opened Merge

  // ---------------------------------------------------------------------
  // Command-line arguments

  /** One argument's assignment: none for an argument not starting with
      `-`, otherwise the text between the dash and the first `=` as the key
      and the rest as the value. An empty argument fails on its first
      character, a dash argument without `=` on its slice. */
  function ArgEntry(arg: string, position: nat): (r: Result<Option<(string, string)>>)
    ensures r.Fail? <==> |arg| == 0 || (arg[0] == '-' && '=' !in arg)
    ensures r.Ok? && r.value.Some? ==>
      exists idx :: 1 <= idx < |arg| && arg[idx] == '=' && '=' !in arg[..idx]
        && r.value.value == (arg[1..idx], arg[idx + 1..])
    ensures r.Ok? && r.value.None? <==> |arg| > 0 && arg[0] != '-'
  {
    if |arg| == 0 then Fail(EmptyArgument(position))
    else if arg[0] != '-' then Ok(None)
    else
      var idx := IndexOf(arg, "=");
      IndexOfCharSpec(arg, '=');
      assert "=" == ['='];
      if idx == -1 then Fail(ArgumentWithoutValue(position))
      else
        assert '=' !in arg[..idx] by {
          forall i | 0 <= i < idx ensures arg[..idx][i] != '=' {
            assert arg[..idx][i] == arg[i];
          }
        }
        Ok(Some((arg[1..idx], arg[idx + 1..])))
  }

  /** The assignments of `args[i..]`, or the first failure among them. */
  function ArgEntries(args: seq<string>, i: nat): (r: Result<seq<Option<(string, string)>>>)
    requires i <= |args|
    ensures r.Ok? <==> forall j :: i <= j < |args| ==> ArgEntry(args[j], j).Ok?
    ensures r.Ok? ==> |r.value| == |args| - i
    ensures r.Ok? ==> forall j :: i <= j < |args| ==> r.value[j - i] == ArgEntry(args[j], j).value
    ensures r.Fail? ==> exists j ::
      && i <= j < |args| && ArgEntry(args[j], j) == Fail(r.error)
      && forall k :: i <= k < j ==> ArgEntry(args[k], k).Ok?
    decreases |args| - i
  {
    if i == |args| then Ok([])
    else
      var e :- ArgEntry(args[i], i);
      var rest :- ArgEntries(args, i + 1);
      Ok([e] + rest)
  }

  /** initConfigFromArgs's key/value map: every `-key=value` argument in
      order, a later assignment of the same key winning. */
  function ParseArgs(args: seq<string>): (r: Result<map<string, string>>)
    ensures r.Ok? <==> forall j :: 0 <= j < |args| ==> ArgEntry(args[j], j).Ok?
  {
    var es :- ArgEntries(args, 0);
    Ok(FromEntries(es))
  }

  /** The argument a user writes to set `key` to `value`. */
  function Flag(key: string, value: string): string {
    "-" + key + "=" + value
  }

  /** Parsing a flag gives back its key and value, whatever the value
      holds, as long as the key has no `=`. */
  lemma FlagRoundTrip(key: string, value: string, position: nat)
    requires '=' !in key
    ensures ArgEntry(Flag(key, value), position) == Ok(Some((key, value)))
  {
    var arg := Flag(key, value);
    var idx := |key| + 1;
    assert arg[idx] == '=';
    assert arg[..idx] == "-" + key;
    assert '=' !in arg[..idx];
    IndexOfChar(arg, '=', idx);
    assert "=" == ['='];
    assert arg[1..idx] == key;
    assert arg[idx + 1..] == value;
  }

  /** The flags for a list of key/value pairs, in order. */
  function Flags(kvs: seq<(string, string)>): (r: seq<string>)
    ensures |r| == |kvs|
    ensures forall i :: 0 <= i < |kvs| ==> r[i] == Flag(kvs[i].0, kvs[i].1)
  {
    seq(|kvs|, i requires 0 <= i < |kvs| => Flag(kvs[i].0, kvs[i].1))
  }

  /** Parsing the flags of a list of pairs gives the map those pairs
      assign in order: AssignmentsKeys and AssignmentsLastWins say which keys
      it has and that the last pair for a repeated key wins. */
  lemma ParseFlags(kvs: seq<(string, string)>)
    requires forall i :: 0 <= i < |kvs| ==> '=' !in kvs[i].0
    ensures ParseArgs(Flags(kvs)) == Ok(FromEntries(Assignments(kvs)))
  {
    FlagsEntries(kvs);
  }

  /** Every flag is accepted and assigns its own pair. */
  lemma FlagsEntries(kvs: seq<(string, string)>)
    requires forall i :: 0 <= i < |kvs| ==> '=' !in kvs[i].0
    ensures ArgEntries(Flags(kvs), 0) == Ok(Assignments(kvs))
  {
    var args := Flags(kvs);
    forall j | 0 <= j < |args| ensures ArgEntry(args[j], j) == Ok(Some(kvs[j])) {
      FlagRoundTrip(kvs[j].0, kvs[j].1, j);
    }
    assert ArgEntries(args, 0).value == Assignments(kvs);
  }

  /** Arguments that do not start with a dash, such as the program's own
      path, assign nothing. */
  lemma PlainArgumentsIgnored(args: seq<string>, extra: string)
    requires ParseArgs(args).Ok?
    requires |extra| > 0 && extra[0] != '-'
    ensures ParseArgs([extra] + args) == ParseArgs(args)
  {
    PlainEntries(args, extra);
    FromEntriesSkipNone(ArgEntries(args, 0).value);
  }

  /** A plain argument in front adds an empty entry in front. */
  lemma PlainEntries(args: seq<string>, extra: string)
    requires ArgEntries(args, 0).Ok?
    requires |extra| > 0 && extra[0] != '-'
    ensures ArgEntries([extra] + args, 0) == Ok([None] + ArgEntries(args, 0).value)
  {
    var all := [extra] + args;
    ShiftedEntries(args, extra);
    assert ArgEntry(all[0], 0) == Ok(None);
    assert ArgEntries(all, 0).Ok?;
    var es := ArgEntries(args, 0).value;
    var es' := ArgEntries(all, 0).value;
    assert |es'| == |[None] + es|;
    forall j | 0 <= j < |es'| ensures es'[j] == ([None] + es)[j] {
      if j > 0 {
        assert es'[j] == ArgEntry(all[j], j).value;
        assert es[j - 1] == ArgEntry(args[j - 1], j - 1).value;
      }
    }
    assert es' == [None] + es;
  }

  /** Behind a plain argument every accepted argument gives the same entry. */
  lemma ShiftedEntries(args: seq<string>, extra: string)
    requires ArgEntries(args, 0).Ok?
    ensures forall j :: 1 <= j < |args| + 1 ==> ArgEntry(([extra] + args)[j], j) == ArgEntry(args[j - 1], j - 1)
  {
    var all := [extra] + args;
    BehindFront(extra, args);
    forall j | 1 <= j < |all| ensures ArgEntry(all[j], j) == ArgEntry(args[j - 1], j - 1) {
      EntryPositionFree(args[j - 1], j, j - 1);
    }
  }

  lemma BehindFront<T>(x: T, xs: seq<T>)
    ensures forall j :: 1 <= j < |xs| + 1 ==> ([x] + xs)[j] == xs[j - 1]
  {
  }

  /** The position only names the failing argument; it never changes an
      accepted one. */
  lemma EntryPositionFree(arg: string, p: nat, q: nat)
    requires ArgEntry(arg, q).Ok?
    ensures ArgEntry(arg, p) == ArgEntry(arg, q)
  {
  }

  // ---------------------------------------------------------------------
  // Layers

  /** The switches of a Loader. */
  datatype Settings = Settings(external: bool, cloud: bool, cloudAddress: string, configPath: string)

  /** What the outside world supplies: the decoded file and cloud layers
      (None when reading fails) and the process arguments. */
  datatype Sources = Sources(file: Option<map<string, string>>, cloud: Option<map<string, string>>, args: seq<string>)

  /** The loaded configuration and the flat string view of it. */
  datatype Loaded = Loaded(config: seq<Node>, strings: map<string, string>)

  /** Merging the layers in order over the fields, each under NotBlank. */
  function MergeLayers(layers: seq<map<string, string>>, fs: seq<Node>): seq<Node>
    decreases |layers|
  {
    if |layers| == 0 then fs
    else MergeFields(layers[|layers| - 1], "", MergeLayers(layers[..|layers| - 1], fs), NotBlank)
  }

  /** The value a leaf at `path` ends with: the last layer's non-blank value
      at that path, or the default when no layer has one. */
  function LayeredValue(layers: seq<map<string, string>>, path: string, default: string): string
    decreases |layers|
  {
    if |layers| == 0 then default
    else
      var x := Lookup(layers[|layers| - 1], path);
      if NotBlank(x) then x else LayeredValue(layers[..|layers| - 1], path, default)
  }

  /** After all layers every leaf keeps its path and holds its layered
      value. */
  lemma {:induction false} MergeLayersPointwise(layers: seq<map<string, string>>, fs: seq<Node>)
    ensures var before := FlattenFields("", fs);
      var after := FlattenFields("", MergeLayers(layers, fs));
      && |after| == |before|
      && forall i :: 0 <= i < |before| ==>
        after[i] == (before[i].0, LayeredValue(layers, before[i].0, before[i].1))
    decreases |layers|
  {
    if |layers| > 0 {
      var init := layers[..|layers| - 1];
      MergeLayersPointwise(init, fs);
      MergeFieldsAreOverride(layers[|layers| - 1], "", MergeLayers(init, fs), NotBlank);
    }
  }

  /** The layers an external loader merges, in order: the file when a path
      is set and it was read, the cloud when enabled and fetched, then the
      arguments. */
  function ExternalLayers(s: Settings, src: Sources, argMap: map<string, string>): (r: seq<map<string, string>>)
    ensures |r| >= 1 && r[|r| - 1] == argMap
  {
    (if NotBlank(s.configPath) && src.file.Some? then [src.file.value] else [])
    + (if s.cloud && src.cloud.Some? then [src.cloud.value] else [])
    + [argMap]
  }

  // ---------------------------------------------------------------------
  // The flat string view: register, then getStringSet

  /** register's writes into its key set, in field order. A string field
      writes its value at its path; a struct field first writes the struct
      itself (no string) at its path, then its own fields under `path.`.
      Copying the nested key set under the prefix writes distinct keys, so
      it leaves what writing the nested fields one by one would. */
  function RegisterNode(prefix: string, node: Node): seq<(string, Option<string>)>
    decreases node
  {
    match node
    case Leaf(k, v) => [(prefix + k, Some(v))]
    case Record(k, fs) => [(prefix + k, None)] + Register(prefix + k + ".", fs)
  }

  function Register(prefix: string, fs: seq<Node>): seq<(string, Option<string>)>
    decreases fs
  {
    if |fs| == 0 then [] else RegisterNode(prefix, fs[0]) + Register(prefix, fs[1..])
  }

  /** The string writes among register's writes, as (path, value) pairs. */
  function StringWrites(ws: seq<(string, Option<string>)>): (r: seq<Option<(string, string)>>)
    ensures |r| == |ws|
    ensures forall i :: 0 <= i < |ws| ==>
      r[i] == (if ws[i].1.Some? then Some((ws[i].0, ws[i].1.value)) else None)
  {
    seq(|ws|, i requires 0 <= i < |ws| =>
      if ws[i].1.Some? then Some((ws[i].0, ws[i].1.value)) else None)
  }

  /** The string fields register writes are exactly the tree's leaves, in
      field order: register visits the same leaves as the flattening. */
  lemma {:induction false} RegisterLeaves(prefix: string, fs: seq<Node>)
    ensures Values(StringWrites(Register(prefix, fs))) == FlattenFields(prefix, fs)
    decreases fs
  {
    if |fs| > 0 {
      RegisterNodeLeaves(prefix, fs[0]);
      RegisterLeaves(prefix, fs[1..]);
      StringWritesAppend(RegisterNode(prefix, fs[0]), Register(prefix, fs[1..]));
      ValuesAppend(StringWrites(RegisterNode(prefix, fs[0])), StringWrites(Register(prefix, fs[1..])));
    }
  }

  lemma {:induction false} RegisterNodeLeaves(prefix: string, node: Node)
    ensures Values(StringWrites(RegisterNode(prefix, node))) == Flatten(prefix, node)
    decreases node
  {
    match node
    case Leaf(k, v) =>
      ValuesStep(StringWrites(RegisterNode(prefix, node)));
    case Record(k, fs) =>
      RegisterLeaves(prefix + k + ".", fs);
      var head: seq<(string, Option<string>)> := [(prefix + k, None)];
      StringWritesAppend(head, Register(prefix + k + ".", fs));
      ValuesAppend(StringWrites(head), StringWrites(Register(prefix + k + ".", fs)));
      ValuesStep(StringWrites(head));
  }

  lemma StringWritesAppend(a: seq<(string, Option<string>)>, b: seq<(string, Option<string>)>)
    ensures StringWrites(a + b) == StringWrites(a) + StringWrites(b)
  {
  }

  /** Write `i` is the last write of its key. */
  ghost predicate LastWrite<V>(ws: seq<(string, V)>, i: int) {
    0 <= i < |ws| && forall j :: i < j < |ws| ==> ws[j].0 != ws[i].0
  }

  /** Every written key has a last write. */
  lemma {:induction false} LastOfKey<V>(ws: seq<(string, V)>, k: string)
    requires exists i :: 0 <= i < |ws| && ws[i].0 == k
    ensures exists i :: LastWrite(ws, i) && ws[i].0 == k
    decreases |ws|
  {
    var n := |ws| - 1;
    if ws[n].0 == k {
      assert LastWrite(ws, n);
    } else {
      var init := ws[..n];
      var i :| 0 <= i < |ws| && ws[i].0 == k;
      assert init[i].0 == k;
      LastOfKey(init, k);
      var l :| LastWrite(init, l) && init[l].0 == k;
      assert LastWrite(ws, l) by {
        forall j | l < j < |ws| ensures ws[j].0 != ws[l].0 {
          if j < n {
            assert ws[j] == init[j];
          }
        }
      }
    }
  }

  /** Every write as an assignment of its value to its key. */
  function Assignments<V>(es: seq<(string, V)>): (r: seq<Option<(string, V)>>)
    ensures |r| == |es|
    ensures forall i :: 0 <= i < |es| ==> r[i] == Some(es[i])
  {
    seq(|es|, i requires 0 <= i < |es| => Some(es[i]))
  }

  /** The assignments leave exactly the keys of the pairs. */
  lemma AssignmentsKeys<V>(es: seq<(string, V)>)
    ensures forall k :: k in FromEntries(Assignments(es)) <==> exists i :: 0 <= i < |es| && es[i].0 == k
  {
    var entries := Assignments(es);
    forall k ensures k in FromEntries(entries) <==> exists i :: 0 <= i < |es| && es[i].0 == k {
      if exists i :: 0 <= i < |es| && es[i].0 == k {
        var i :| 0 <= i < |es| && es[i].0 == k;
        assert entries[i].Some? && entries[i].value.0 == k;
      }
    }
  }

  /** A pair no later pair overrides is what the assignments leave. */
  lemma AssignmentsLastWins<V>(es: seq<(string, V)>, i: nat)
    requires LastWrite(es, i)
    ensures FromEntries(Assignments(es))[es[i].0] == es[i].1
  {
    var entries := Assignments(es);
    FromEntriesLastWins(entries);
    assert LastFor(entries, i);
  }

  /** The string written last at `k`: register's last write of `k` is a
      string field's value. */
  ghost predicate StringLast(ws: seq<(string, Option<string>)>, k: string) {
    exists i :: LastWrite(ws, i) && ws[i].0 == k && ws[i].1.Some?
  }

  /** getStringSet over the key set register leaves: a key stays exactly
      when its last write was a string, and keeps that string. */
  function StringSet(ws: seq<(string, Option<string>)>): (r: map<string, string>)
    ensures forall k :: k in r <==> StringLast(ws, k)
    ensures forall i :: LastWrite(ws, i) && ws[i].1.Some? ==> ws[i].0 in r && r[ws[i].0] == ws[i].1.value
  {
    var keySet := FromEntries(Assignments(ws));
    StringSetSpec(ws);
    map k | k in keySet && keySet[k].Some? :: keySet[k].value
  }

  lemma StringSetSpec(ws: seq<(string, Option<string>)>)
    ensures var keySet := FromEntries(Assignments(ws));
      && (forall k :: k in keySet && keySet[k].Some? <==> StringLast(ws, k))
      && (forall i :: LastWrite(ws, i) ==> ws[i].0 in keySet && keySet[ws[i].0] == ws[i].1)
  {
    var keySet := FromEntries(Assignments(ws));
    AssignmentsKeys(ws);
    forall i | LastWrite(ws, i) ensures ws[i].0 in keySet && keySet[ws[i].0] == ws[i].1 {
      AssignmentsLastWins(ws, i);
    }
    forall k | k in keySet && keySet[k].Some? ensures StringLast(ws, k) {
      LastOfKey(ws, k);
    }
  }

  /** configStr: `getStringSet(register(applicationConfig))`. */
  function Strings(config: seq<Node>): (r: map<string, string>)
    ensures forall k :: k in r <==> StringLast(Register("", config), k)
    ensures forall k :: k in r ==> LeafPath(config, k)
  {
    var ws := Register("", config);
    StringsAreLeaves(config);
    StringSet(ws)
  }

  /** A key of the string view is some leaf's path. */
  lemma StringsAreLeaves(config: seq<Node>)
    ensures forall k :: StringLast(Register("", config), k) ==> LeafPath(config, k)
  {
    var ws := Register("", config);
    RegisterLeaves("", config);
    forall k | StringLast(ws, k) ensures LeafPath(config, k) {
      var i :| LastWrite(ws, i) && ws[i].0 == k && ws[i].1.Some?;
      assert StringWrites(ws)[i] == Some((k, ws[i].1.value));
      assert (k, ws[i].1.value) in FlattenFields("", config);
    }
  }

  /** Some leaf of the configuration sits at the dotted path `k`. */
  ghost predicate LeafPath(config: seq<Node>, k: string) {
    exists i :: 0 <= i < |FlattenFields("", config)| && FlattenFields("", config)[i].0 == k
  }

  /** GetString: the string at a key, the empty text for an unknown key. */
  function GetString(loaded: Loaded, key: string): (r: string)
    ensures key !in loaded.strings ==> r == ""
  {
    Lookup(loaded.strings, key)
  }

  /** GetString at a string field's path reads its value when register
      writes nothing later at that path: neither another string field nor
      a struct field. */
  lemma GetStringReadsLeaf(config: seq<Node>, i: nat)
    requires var ws := Register("", config); LastWrite(ws, i) && ws[i].1.Some?
    ensures var w := Register("", config)[i];
      GetString(Loaded(config, Strings(config)), w.0) == w.1.value
  {
  }

  /** GetString at a path whose last write is a struct field reads "",
      even when a string field was written there before. */
  lemma GetStringShadowedByStruct(config: seq<Node>, i: nat)
    requires var ws := Register("", config); LastWrite(ws, i) && ws[i].1.None?
    ensures GetString(Loaded(config, Strings(config)), Register("", config)[i].0) == ""
  {
    var ws := Register("", config);
    forall j | LastWrite(ws, j) && ws[j].0 == ws[i].0 ensures j == i {
    }
  }

  /** A string field followed by a sibling struct field with the same tag:
      the string is lost, the struct's own string field is kept. */
  lemma SiblingStructHidesString()
    ensures Strings([Leaf("a", "x"), Record("a", [Leaf("c", "y")])]) == map["a.c" := "y"]
  {
    var config := [Leaf("a", "x"), Record("a", [Leaf("c", "y")])];
    SiblingRegister();
    var ws: seq<(string, Option<string>)> := [("a", Some("x")), ("a", None), ("a.c", Some("y"))];
    var r := Strings(config);
    assert LastWrite(ws, 2);
    forall k | k in r ensures k == "a.c" {
      var j :| LastWrite(ws, j) && ws[j].0 == k && ws[j].1.Some?;
      assert j != 0 by { assert ws[1].0 == ws[0].0; }
    }
  }

  lemma SiblingRegister()
    ensures Register("", [Leaf("a", "x"), Record("a", [Leaf("c", "y")])])
      == [("a", Some("x")), ("a", None), ("a.c", Some("y"))]
  {
    var config := [Leaf("a", "x"), Record("a", [Leaf("c", "y")])];
    assert "" + "a" == "a";
    assert RegisterNode("", config[0]) == [("a", Some("x"))];
    assert [Leaf("c", "y")][1..] == [];
    assert "a." + "c" == "a.c";
    assert RegisterNode("a.", Leaf("c", "y")) == [("a.c", Some("y"))];
    assert Register("a.", [Leaf("c", "y")]) == [("a.c", Some("y"))];
    assert "" + "a" + "." == "a.";
    assert RegisterNode("", config[1]) == [("a", None), ("a.c", Some("y"))];
    assert config[1..][1..] == [];
  }

  /** Loader.Begin: a cloud loader without a usable address is refused;
      otherwise the defaults are loaded, and an external loader merges the
      file, cloud and argument layers over them, in that order. */
  function Begin(s: Settings, defaults: seq<Node>, src: Sources): (r: Result<Loaded>)
    ensures s.cloud && IsBlank(s.cloudAddress) ==> r == Fail(BlankCloudAddress)
    ensures !s.external && !(s.cloud && IsBlank(s.cloudAddress)) ==> r == Ok(Loaded(defaults, Strings(defaults)))
    ensures r.Fail? ==> r.error == BlankCloudAddress || (s.external && ParseArgs(src.args).Fail?)
    ensures r.Ok? <==> !(s.cloud && IsBlank(s.cloudAddress)) && (!s.external || ParseArgs(src.args).Ok?)
    ensures s.external && !(s.cloud && IsBlank(s.cloudAddress)) && ParseArgs(src.args).Fail? ==>
      r == Fail(ParseArgs(src.args).error)
    ensures r.Ok? ==> Shape(Record("", r.value.config)) == Shape(Record("", defaults))
    ensures r.Ok? ==> r.value.strings == Strings(r.value.config)
  {
    if s.cloud && IsBlank(s.cloudAddress) then Fail(BlankCloudAddress)
    else if !s.external then Ok(Loaded(defaults, Strings(defaults)))
    else
      var argMap :- ParseArgs(src.args);
      var config := MergeLayers(ExternalLayers(s, src, argMap), defaults);
      MergeLayersKeepShape(ExternalLayers(s, src, argMap), defaults);
      Ok(Loaded(config, Strings(config)))
  }

  lemma {:induction false} MergeLayersKeepShape(layers: seq<map<string, string>>, fs: seq<Node>)
    ensures ShapeFields(MergeLayers(layers, fs)) == ShapeFields(fs)
    decreases |layers|
  {
    if |layers| > 0 {
      MergeLayersKeepShape(layers[..|layers| - 1], fs);
      MergeFieldsKeepShape(layers[|layers| - 1], "", MergeLayers(layers[..|layers| - 1], fs), NotBlank);
    }
  }

  /** A started external loader holds, at every leaf, the arguments' value
      at its path if that is not blank, else the cloud's (when enabled and
      fetched), else the file's (when a path is set and it was read), else
      the default. */
  lemma BeginLayerOrder(s: Settings, defaults: seq<Node>, src: Sources)
    requires s.external && Begin(s, defaults, src).Ok?
    ensures var argMap := ParseArgs(src.args).value;
      var before := FlattenFields("", defaults);
      var after := FlattenFields("", Begin(s, defaults, src).value.config);
      && |after| == |before|
      && forall i :: 0 <= i < |before| ==>
        after[i] == (before[i].0, LayeredValue(ExternalLayers(s, src, argMap), before[i].0, before[i].1))
  {
    MergeLayersPointwise(ExternalLayers(s, src, ParseArgs(src.args).value), defaults);
  }

  /** The arguments take precedence over every other layer. */
  lemma ArgumentsWin(s: Settings, defaults: seq<Node>, src: Sources, i: nat)
    requires s.external && Begin(s, defaults, src).Ok?
    requires i < |FlattenFields("", defaults)|
    requires NotBlank(Lookup(ParseArgs(src.args).value, FlattenFields("", defaults)[i].0))
    ensures |FlattenFields("", Begin(s, defaults, src).value.config)| == |FlattenFields("", defaults)|
    ensures FlattenFields("", Begin(s, defaults, src).value.config)[i].1
      == Lookup(ParseArgs(src.args).value, FlattenFields("", defaults)[i].0)
  {
    BeginLayerOrder(s, defaults, src);
  }
}
