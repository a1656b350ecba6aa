/**
 The generator's text synthesis: the per-type cases of the generated
 mergeConfig, the body of initDefaultConfig, the body of autoExecute, and the
 collection of struct names, defaults, start-up calls and aliases over the
 already normalised lines of the scanned files.
 */
module CodeGen {
  import opened Results
  import opened Text
  import opened Assoc
  import opened Scanner
  import opened Directives

  // ---------------------------------------------------------------------
  // Case templates

  /** The placeholder a template carries for the type name. */
  const Placeholder := "{$type}"

  /** The pieces around the placeholders of the two case templates, each
      written line by line. */
  const CaseOpen := "\ncase \""
  const Case1Middle := "\":\n" + "\t\ttarget := original.("
  const Case1Close := ")\n" + "\t\tvalueOfObject = reflect.ValueOf(&target)\n" + "\t\ttypeOfObject = reflect.TypeOf(&target)\n"
  const Case2Middle := "\":\n" + "\t\t\t\t\tvalueOfObject.Elem()" + ".FieldByName(field.Name)" + ".Set(reflect.ValueOf(result.("
  const Case2Close := ")))\n"

  /** Template1: the case of the `realType` switch that unpacks a value of
      the type into `target`. */
  const Template1 := CaseOpen + Placeholder + Case1Middle + Placeholder + Case1Close

  /** Template2: the case of the field-type switch that stores the merged
      nested value back into its field. */
  const Template2 := CaseOpen + Placeholder + Case2Middle + Placeholder + Case2Close

  /** The first case for type `t`, written out. */
  function Case1(t: string): string {
    CaseOpen + t + Case1Middle + t + Case1Close
  }

  /** The second case for type `t`, written out. */
  function Case2(t: string): string {
    CaseOpen + t + Case2Middle + t + Case2Close
  }

  /** No fixed piece of a case contains `{`, the placeholder's first
      character. */
  lemma PiecesWithoutBrace()
    ensures '{' !in CaseOpen
    ensures '{' !in Case1Middle && '{' !in Case1Close
    ensures '{' !in Case2Middle && '{' !in Case2Close
  {
    Case1CloseWithoutBrace();
    Case2MiddleWithoutBrace();
  }

  lemma Case1CloseWithoutBrace()
    ensures '{' !in Case1Close
  {
    ValueLineWithoutBrace();
    TypeLineWithoutBrace();
    NotInConcat(")\n", "\t\tvalueOfObject = reflect.ValueOf(&target)\n", '{');
    NotInConcat(")\n" + "\t\tvalueOfObject = reflect.ValueOf(&target)\n", "\t\ttypeOfObject = reflect.TypeOf(&target)\n", '{');
  }

  lemma ValueLineWithoutBrace()
    ensures '{' !in "\t\tvalueOfObject = reflect.ValueOf(&target)\n"
  {
  }

  lemma TypeLineWithoutBrace()
    ensures '{' !in "\t\ttypeOfObject = reflect.TypeOf(&target)\n"
  {
  }

  lemma Case2MiddleWithoutBrace()
    ensures '{' !in Case2Middle
  {
    ElemWithoutBrace();
    FieldWithoutBrace();
    SetWithoutBrace();
    NotInConcat("\":\n", "\t\t\t\t\tvalueOfObject.Elem()", '{');
    NotInConcat("\":\n" + "\t\t\t\t\tvalueOfObject.Elem()", ".FieldByName(field.Name)", '{');
    NotInConcat("\":\n" + "\t\t\t\t\tvalueOfObject.Elem()" + ".FieldByName(field.Name)",
      ".Set(reflect.ValueOf(result.(", '{');
  }

  lemma ElemWithoutBrace()
    ensures '{' !in "\t\t\t\t\tvalueOfObject.Elem()"
  {
  }

  lemma FieldWithoutBrace()
    ensures '{' !in ".FieldByName(field.Name)"
  {
  }

  lemma SetWithoutBrace()
    ensures '{' !in ".Set(reflect.ValueOf(result.("
  {
  }

  /** Filling a template made of brace-free pieces around two placeholders
      puts the name in both places and changes nothing else. */
  lemma FillPieces(open: string, pat: string, middle: string, close: string, t: string)
    requires |pat| > 0 && pat[0] !in open && pat[0] !in middle && pat[0] !in close
    ensures ReplaceAll(open + pat + middle + pat + close, pat, t) == open + t + middle + t + close
  {
    var tail := pat + close;
    var after := middle + tail;
    ConcatAssoc(open + pat + middle, pat, close);
    ConcatAssoc(open + pat, middle, tail);
    ConcatAssoc(open, pat, after);
    ReplaceAllSkip(open, pat + after, pat, t);
    ReplaceAllHit(after, pat, t);
    ReplaceAllSkip(middle, tail, pat, t);
    ReplaceAllHit(close, pat, t);
    ReplaceAllNone(close, pat, t);
    ConcatAssoc(open, t, middle + (t + close));
    ConcatAssoc(open + t, middle, t + close);
    ConcatAssoc(open + t + middle, t, close);
  }

  /** getTemplate1: Template1 with every placeholder replaced by the name. */
  function GetTemplate1(name: string): (r: string)
    ensures r == Case1(name)
  {
    PiecesWithoutBrace();
    assert Placeholder[0] == '{';
    FillPieces(CaseOpen, Placeholder, Case1Middle, Case1Close, name);
    ReplaceAll(Template1, Placeholder, name)
  }

  /** getTemplate2: Template2 with every placeholder replaced by the name. */
  function GetTemplate2(name: string): (r: string)
    ensures r == Case2(name)
  {
    PiecesWithoutBrace();
    assert Placeholder[0] == '{';
    FillPieces(CaseOpen, Placeholder, Case2Middle, Case2Close, name);
    ReplaceAll(Template2, Placeholder, name)
  }

  /** A filled case carries no placeholder, unless the name brought one. */
  lemma FilledCasesHaveNoPlaceholder(t: string)
    requires '{' !in t
    ensures !Occurs(GetTemplate1(t), Placeholder)
    ensures !Occurs(GetTemplate2(t), Placeholder)
  {
    PiecesWithoutBrace();
    AbsentFirstCharNoOccurrence(Case1(t), Placeholder);
    AbsentFirstCharNoOccurrence(Case2(t), Placeholder);
  }

  // ---------------------------------------------------------------------
  // generateFunc

  const Header := "\nfunc (l *Loader)mergeConfig(loadedConfig map[string]string, prefix, realType string, original interface{}, validator func(str string) bool) interface{} {\n\tvar valueOfObject reflect.Value\n\tvar typeOfObject reflect.Type\n\n\tswitch realType {\ncase \"ApplicationConfig\":\n\t\ttarget := original.(ApplicationConfig)\n\t\tvalueOfObject = reflect.ValueOf(&target)\n\t\ttypeOfObject = reflect.TypeOf(&target)\n"
  const Content1 := "\n}\n\n\tif typeOfObject.Elem().Kind() == reflect.Struct {\n\t\tfor i := 0; i < typeOfObject.Elem().NumField(); i++ {\n\t\t\tfield := typeOfObject.Elem().Field(i)\n\t\t\tfieldValue := valueOfObject.Elem().FieldByName(field.Name)\n\t\t\tkey := field.Tag[6 : len(field.Tag)-1]\n\t\t\tif field.Type.Kind() == reflect.Struct {\n\t\t\t\toldPrefix := prefix\n\t\t\t\tprefix += string(key) + \".\"\n\t\t\t\tresult := l.mergeConfig(loadedConfig, prefix, field.Type.Name(), fieldValue.Interface(), validator)\n\t\t\t\tswitch field.Type.Name() {\n"
  const Footer := "\n}\n\t\t\t\tprefix = oldPrefix\n\t\t\t} else {\n\t\t\t\tif validator(loadedConfig[prefix+string(key)]) {\n\t\t\t\t\tvalueOfObject.Elem().FieldByName(field.Name).SetString(loadedConfig[prefix+string(key)])\n\t\t\t\t}\n\t\t\t}\n\t\t}\n\t}\n\treturn valueOfObject.Elem().Interface()\n}\n"

  /** The first cases of the given types, accumulated in order. */
  function Cases1(types: seq<string>): string {
    Each(GetTemplate1, types)
  }

  /** The second cases of the given types, accumulated in order. */
  function Cases2(types: seq<string>): string {
    Each(GetTemplate2, types)
  }

  /** generateFunc: the mergeConfig function with one case per type in each
      of its two switches. */
  function GenerateFunc(types: seq<string>): (r: string)
    ensures HasPrefix(r, Header)
  {
    var a := Header + Cases1(types);
    PrefixOfConcat(Header, Cases1(types));
    PrefixExtends(a, Header, Content1);
    PrefixExtends(a + Content1, Header, Cases2(types));
    PrefixExtends(a + Content1 + Cases2(types), Header, Footer);
    Header + Cases1(types) + Content1 + Cases2(types) + Footer
  }

  /** The case order of generateFunc's output, stated for any fixed texts
      `h`, `m`, `e` around the two runs of cases (GenerateFunc puts Header,
      Content1 and Footer there): the `realType` case of `types[k]` comes
      right after the text in front and the cases of the earlier types, and
      its field-type case right after Content1 and the earlier field cases.
      So the cases follow the input order, one per type in each switch. */
  lemma GenerateFuncCaseOrder(h: string, m: string, e: string, types: seq<string>, k: nat)
    requires k < |types|
    ensures OccursAt(h + Cases1(types) + m + Cases2(types) + e, GetTemplate1(types[k]), |h| + |Cases1(types[..k])|)
    ensures OccursAt(h + Cases1(types) + m + Cases2(types) + e,
      GetTemplate2(types[k]), |h| + |Cases1(types)| + |m| + |Cases2(types[..k])|)
  {
    var f, g := GetTemplate1, GetTemplate2;
    EachAround(h, m, e, f, g, types, k);
    assert f(types[k]) == GetTemplate1(types[k]);
    assert g(types[k]) == GetTemplate2(types[k]);
  }

  /** The inserted cases are free of placeholders when the type names are. */
  lemma {:induction false} CasesHaveNoPlaceholder(types: seq<string>)
    requires forall k :: 0 <= k < |types| ==> '{' !in types[k]
    ensures '{' !in Cases1(types) && '{' !in Cases2(types)
    ensures !Occurs(Cases1(types), Placeholder) && !Occurs(Cases2(types), Placeholder)
    decreases |types|
  {
    if |types| > 0 {
      CasesHaveNoPlaceholder(types[1..]);
      PiecesWithoutBrace();
    }
    AbsentFirstCharNoOccurrence(Cases1(types), Placeholder);
    AbsentFirstCharNoOccurrence(Cases2(types), Placeholder);
  }

  // ---------------------------------------------------------------------
  // generateConfigs

  const ConfigsHeader := "\n" + "func (l *Loader) initDefaultConfig() {" + "\n"
  const ExecuteHeader := "\n" + "func (l *Loader) autoExecute() {" + "\n"
  const BodyFooter := "}\n"

  /** One assignment of initDefaultConfig: the field named by the
      capitalised alias receives the result of the default's call. */
  function AssignLine(alias: string, call: string): string
    requires |alias| > 0
  {
    "applicationConfig." + UpperFirst(alias) + "=" + call
  }

  /** `order` lists every key of `m` exactly once: the order in which Go's
      map iteration happens to visit them. */
  ghost predicate Enumerates<V>(order: seq<string>, m: map<string, V>) {
    && (forall t :: t in m <==> t in order)
    && (forall i, j :: 0 <= i < j < |order| ==> order[i] != order[j])
  }

  /** A listing of the keys, each once, enumerates the map. */
  lemma ListingEnumerates<V>(order: seq<string>, m: map<string, V>)
    requires forall t :: t in m.Keys <==> t in order
    requires forall i, j :: 0 <= i < j < |order| ==> order[i] != order[j]
    ensures Enumerates(order, m)
  {
  }

  /** The type has a usable alias: present and not empty. */
  predicate HasAlias(aliases: map<string, string>, t: string) {
    t in aliases && aliases[t] != ""
  }

  /** `order[k]` is the first visited default without a usable alias. */
  ghost predicate FirstUnaliased(config: map<string, string>, aliases: map<string, string>, order: seq<string>, k: int) {
    && 0 <= k < |order| && order[k] in config && !HasAlias(aliases, order[k])
    && forall j :: 0 <= j < k && order[j] in config ==> HasAlias(aliases, order[j])
  }

  /** The assignment lines for the defaults visited in `order`; the first
      visited type without a usable alias is an error, as the source's
      slice of its alias fails. Names not in `config` are not visited. */
  function AssignLines(config: map<string, string>, aliases: map<string, string>, order: seq<string>)
    : (r: Result<seq<string>>)
    ensures r.Ok? <==> forall k :: 0 <= k < |order| && order[k] in config ==> HasAlias(aliases, order[k])
    ensures r.Fail? ==> exists k :: FirstUnaliased(config, aliases, order, k) && r.error == EmptyAlias(order[k])
    ensures r.Ok? ==> forall l :: l in r.value <==>
      exists k :: 0 <= k < |order| && order[k] in config && l == AssignLine(aliases[order[k]], config[order[k]])
    ensures r.Ok? ==> |r.value| <= |order|
    ensures r.Ok? && (forall k :: 0 <= k < |order| ==> order[k] in config) ==> |r.value| == |order|
  {
    if |order| == 0 then Ok([])
    else
      var t := order[0];
      var rest := AssignLines(config, aliases, order[1..]);
      assert forall k :: 1 <= k < |order| ==> order[k] == order[1..][k - 1];
      if t !in config || HasAlias(aliases, t) then
        if rest.Fail? then
          FirstUnaliasedShift(config, aliases, order, rest.error);
          rest
        else if t !in config then rest
        else Ok([AssignLine(aliases[t], config[t])] + rest.value)
      else
        assert FirstUnaliased(config, aliases, order, 0);
        Fail(EmptyAlias(t))
  }

  /** A first unaliased default after a visited head that is not at fault
      is the first of the whole order too, one position later. */
  lemma FirstUnaliasedShift(config: map<string, string>, aliases: map<string, string>, order: seq<string>, e: Error)
    requires |order| > 0 && (order[0] !in config || HasAlias(aliases, order[0]))
    requires exists k :: FirstUnaliased(config, aliases, order[1..], k) && e == EmptyAlias(order[1..][k])
    ensures exists k :: FirstUnaliased(config, aliases, order, k) && e == EmptyAlias(order[k])
  {
    var k :| FirstUnaliased(config, aliases, order[1..], k) && e == EmptyAlias(order[1..][k]);
    assert FirstUnaliased(config, aliases, order, k + 1) by {
      forall j | 0 <= j < k + 1 && order[j] in config ensures HasAlias(aliases, order[j]) {
        if j > 0 {
          assert order[j] == order[1..][j - 1];
        }
      }
    }
  }

  /** generateConfigs: the body of initDefaultConfig, one assignment per
      default, in the visiting order. */
  function GenerateConfigs(config: map<string, string>, aliases: map<string, string>, order: seq<string>)
    : (r: Result<string>)
    ensures r.Ok? ==> HasPrefix(r.value, ConfigsHeader)
  {
    var lines :- AssignLines(config, aliases, order);
    Ok(ConfigsHeader + Terminated(lines) + BodyFooter)
  }

  /** Whatever order the map is visited in, the body is generated exactly
      when every default's type has a usable alias. */
  lemma GenerateConfigsAnyOrder(config: map<string, string>, aliases: map<string, string>, order: seq<string>)
    requires Enumerates(order, config)
    ensures GenerateConfigs(config, aliases, order).Ok? <==> forall t :: t in config ==> HasAlias(aliases, t)
  {
    var r := AssignLines(config, aliases, order);
    if r.Ok? {
      forall t | t in config ensures HasAlias(aliases, t) {
        var k :| 0 <= k < |order| && order[k] == t;
      }
    } else {
      var k :| 0 <= k < |order| && order[k] in config && !HasAlias(aliases, order[k]);
      assert !HasAlias(aliases, order[k]);
    }
  }

  /** Whatever order the map is visited in, a generated body assigns
      exactly one line per default: the field of the type's alias receives
      the type's default call. */
  lemma AssignLinesOnePerDefault(config: map<string, string>, aliases: map<string, string>, order: seq<string>)
    requires Enumerates(order, config)
    requires AssignLines(config, aliases, order).Ok?
    ensures |AssignLines(config, aliases, order).value| == |config|
    ensures forall l :: l in AssignLines(config, aliases, order).value <==>
      exists t :: t in config && l == AssignLine(aliases[t], config[t])
  {
    var r := AssignLines(config, aliases, order).value;
    assert forall k :: 0 <= k < |order| ==> order[k] in config;
    DistinctCardinality(order);
    assert config.Keys == set x | x in order;
    forall l | l in r ensures exists t :: t in config && l == AssignLine(aliases[t], config[t]) {
      var k :| 0 <= k < |order| && order[k] in config && l == AssignLine(aliases[order[k]], config[order[k]]);
      assert order[k] in config;
    }
    forall l | exists t :: t in config && l == AssignLine(aliases[t], config[t]) ensures l in r {
      var t :| t in config && l == AssignLine(aliases[t], config[t]);
      var k :| 0 <= k < |order| && order[k] == t;
    }
  }

  /** A sequence without repetitions has as many distinct elements as
      positions. */
  lemma {:induction false} DistinctCardinality(s: seq<string>)
    requires forall i, j :: 0 <= i < j < |s| ==> s[i] != s[j]
    ensures |set x | x in s| == |s|
    decreases |s|
  {
    if |s| > 0 {
      DistinctCardinality(s[1..]);
      var rest := set x | x in s[1..];
      assert s[0] !in rest by {
        forall k | 0 <= k < |s[1..]| ensures s[1..][k] != s[0] {
          assert s[1..][k] == s[k + 1];
        }
      }
      assert (set x | x in s) == {s[0]} + rest by {
        forall x | x in s ensures x in {s[0]} + rest {
          var k :| 0 <= k < |s| && s[k] == x;
          if k > 0 {
            assert s[1..][k - 1] == x;
          }
        }
      }
    }
  }

  // ---------------------------------------------------------------------
  // generateExecute

  /** generateExecute: the body of autoExecute, one call per line, in the
      order given. */
  function GenerateExecute(executes: seq<string>): (r: string)
    ensures HasPrefix(r, ExecuteHeader)
  {
    ExecuteHeader + Terminated(executes) + BodyFooter
  }

  /** Read line by line, the generated autoExecute is its header lines, the
      calls in order, the closing brace and the empty text after the final
      newline. */
  lemma GenerateExecuteLines(executes: seq<string>)
    requires forall k :: 0 <= k < |executes| ==> '\n' !in executes[k]
    ensures Split(GenerateExecute(executes), '\n')
      == ["", "func (l *Loader) autoExecute() {"] + executes + ["}", ""]
  {
    var head := ["", "func (l *Loader) autoExecute() {"];
    var tail := ["}"];
    assert Terminated(head[1..][1..]) == "";
    assert Terminated(head) == ExecuteHeader;
    assert Terminated(tail[1..]) == "";
    assert Terminated(tail) == BodyFooter;
    var all := head + executes + tail;
    forall k | 0 <= k < |all| ensures '\n' !in all[k] {
      if k < 2 {
        assert all[k] == head[k];
      } else if k < 2 + |executes| {
        assert all[k] == executes[k - 2];
      } else {
        assert all[k] == "}";
      }
    }
    TerminatedAppend(head, executes);
    TerminatedAppend(head + executes, tail);
    assert GenerateExecute(executes) == Terminated(all) + "";
    SplitTerminated(all, "");
    assert Split("", '\n') == [""];
  }

  /** Read line by line after its header, the generated initDefaultConfig
      is the assignment lines followed by the closing brace. */
  lemma GenerateConfigsLines(config: map<string, string>, aliases: map<string, string>, order: seq<string>)
    requires AssignLines(config, aliases, order).Ok?
    requires forall l :: l in AssignLines(config, aliases, order).value ==> '\n' !in l
    ensures var r := GenerateConfigs(config, aliases, order).value;
      Split(r[|ConfigsHeader|..], '\n') == AssignLines(config, aliases, order).value + ["}", ""]
  {
    var lines := AssignLines(config, aliases, order).value;
    assert GenerateConfigs(config, aliases, order).value == ConfigsHeader + Terminated(lines) + BodyFooter;
    DropPrefix(ConfigsHeader, Terminated(lines), BodyFooter);
    BodyLines(lines);
  }

  lemma FooterIsBraceLine()
    ensures BodyFooter == "}" + ['\n'] && '\n' !in "}"
  {
  }

  lemma DropPrefix(h: string, b: string, c: string)
    ensures (h + b + c)[|h|..] == b + c
  {
    assert h + b + c == h + (b + c);
  }

  /** A body of newline-free lines and the closing brace read back line by
      line as those lines, the brace and the empty text after the final
      newline. */
  lemma BodyLines(lines: seq<string>)
    requires forall k :: 0 <= k < |lines| ==> '\n' !in lines[k]
    ensures Split(Terminated(lines) + BodyFooter, '\n') == lines + ["}", ""]
  {
    FooterIsBraceLine();
    SplitTerminatedLast(lines, "}");
  }

  // ---------------------------------------------------------------------
  // getScanTypes

  /** What getScanTypes gathers: the struct names, the default calls by
      type, the start-up calls and the aliases by type. */
  datatype ScanTypes = ScanTypes(
    types: seq<string>,
    defaults: map<string, string>,
    executes: seq<string>,
    aliases: map<string, string>)

  /** What one file contributes, or the first failure among its steps, in
      the source's order. */
  function ScanFile(lines: seq<string>): Result<ScanTypes>
  {
    var config :- GetDefaultConfig(lines);
    var execute :- AutoExecuteCalls(lines);
    var aliases :- ScanAliases(lines);
    Ok(ScanTypes(GetStructType(lines), config, execute, aliases))
  }

  /** The aliases the file's configuration blocks declare. */
  function ScanAliases(lines: seq<string>): Result<map<string, string>>
  {
    var indexes :- FindConfigurationsPosition(lines);
    var conf :- GetConfiguration(lines, indexes);
    Ok(conf.aliases)
  }

  /** Some line of the file declares struct `t`. */
  ghost predicate DeclaresStruct(lines: seq<string>, t: string) {
    exists i :: 0 <= i < |lines| && StructName(lines[i]) == Some(t)
  }

  /** Some marker of the file gives type `t` a default. */
  ghost predicate DeclaresDefault(lines: seq<string>, t: string) {
    exists i :: DefaultDeclaredAt(lines, i, t)
  }

  /** Some marker of the file names the start-up call `m`. */
  ghost predicate DeclaresExecute(lines: seq<string>, m: string) {
    exists i :: ExecuteDeclaredAt(lines, i, m)
  }

  lemma StructTypeMembers(lines: seq<string>)
    ensures forall t :: t in GetStructType(lines) <==> DeclaresStruct(lines, t)
  {
    forall t | DeclaresStruct(lines, t) ensures t in GetStructType(lines) {
      var i :| 0 <= i < |lines| && StructName(lines[i]) == Some(t);
    }
    forall t | t in GetStructType(lines) ensures DeclaresStruct(lines, t) {
      var r := GetStructType(lines);
      var k :| 0 <= k < |r| && r[k] == t;
    }
  }

  /** The defaults and calls of a file that scans are exactly those its
      markers declare. */
  lemma ScanFileMembers(lines: seq<string>)
    requires ScanFile(lines).Ok?
    ensures forall t :: t in ScanFile(lines).value.types <==> DeclaresStruct(lines, t)
    ensures forall t :: t in ScanFile(lines).value.defaults <==> DeclaresDefault(lines, t)
    ensures forall m :: m in ScanFile(lines).value.executes <==> DeclaresExecute(lines, m)
  {
    ScanFileParts(lines);
    StructTypeMembers(lines);
  }

  /** A file that scans has its defaults and calls read, and its scan is
      made of exactly those. */
  lemma ScanFileParts(lines: seq<string>)
    requires ScanFile(lines).Ok?
    ensures GetDefaultConfig(lines).Ok? && AutoExecuteCalls(lines).Ok?
    ensures ScanFile(lines).value.types == GetStructType(lines)
    ensures ScanFile(lines).value.defaults == GetDefaultConfig(lines).value
    ensures ScanFile(lines).value.executes == AutoExecuteCalls(lines).value
  {
  }

  /** The scan of two runs of files: names and calls concatenated, defaults
      and aliases of the second run overwriting those of the first. */
  function Combine(a: ScanTypes, b: ScanTypes): ScanTypes {
    ScanTypes(a.types + b.types, a.defaults + b.defaults, a.executes + b.executes, a.aliases + b.aliases)
  }

  /** The per-file results folded in file order; the first failure wins. */
  function Gather(rs: seq<Result<ScanTypes>>): (r: Result<ScanTypes>)
    ensures r.Ok? <==> forall f :: 0 <= f < |rs| ==> rs[f].Ok?
    ensures r.Fail? ==> exists f :: 0 <= f < |rs| && rs[f] == Fail(r.error)
    ensures r.Fail? ==> exists f :: FirstFailure(rs, f) && r.error == rs[f].error
    decreases |rs|
  {
    if |rs| == 0 then Ok(ScanTypes([], map[], [], map[]))
    else
      var init := rs[..|rs| - 1];
      var acc := Gather(init);
      assert forall f :: 0 <= f < |init| ==> init[f] == rs[f];
      assert forall f :: FirstFailure(init, f) ==> FirstFailure(rs, f);
      assert acc.Ok? && rs[|rs| - 1].Fail? ==> FirstFailure(rs, |rs| - 1);
      if acc.Fail? then Fail(acc.error)
      else if rs[|rs| - 1].Fail? then Fail(rs[|rs| - 1].error)
      else Ok(Combine(acc.value, rs[|rs| - 1].value))
  }

  /** What the fold collects is what some file contributed. */
  lemma GatherMembers(rs: seq<Result<ScanTypes>>)
    requires Gather(rs).Ok?
    ensures forall t :: t in Gather(rs).value.types <==> exists f :: 0 <= f < |rs| && t in rs[f].value.types
    ensures forall t :: t in Gather(rs).value.defaults <==> exists f :: 0 <= f < |rs| && t in rs[f].value.defaults
    ensures forall m :: m in Gather(rs).value.executes <==> exists f :: 0 <= f < |rs| && m in rs[f].value.executes
  {
    GatherTypes(rs);
    GatherDefaults(rs);
    GatherExecutes(rs);
  }

  lemma {:induction false} GatherTypes(rs: seq<Result<ScanTypes>>)
    requires Gather(rs).Ok?
    ensures forall t :: t in Gather(rs).value.types <==> exists f :: 0 <= f < |rs| && t in rs[f].value.types
    decreases |rs|
  {
    if |rs| > 0 {
      GatherStep(rs);
      GatherTypes(rs[..|rs| - 1]);
    }
  }

  lemma {:induction false} GatherDefaults(rs: seq<Result<ScanTypes>>)
    requires Gather(rs).Ok?
    ensures forall t :: t in Gather(rs).value.defaults <==> exists f :: 0 <= f < |rs| && t in rs[f].value.defaults
    decreases |rs|
  {
    if |rs| > 0 {
      GatherStep(rs);
      GatherDefaults(rs[..|rs| - 1]);
    }
  }

  lemma {:induction false} GatherExecutes(rs: seq<Result<ScanTypes>>)
    requires Gather(rs).Ok?
    ensures forall m :: m in Gather(rs).value.executes <==> exists f :: 0 <= f < |rs| && m in rs[f].value.executes
    decreases |rs|
  {
    if |rs| > 0 {
      GatherStep(rs);
      GatherExecutes(rs[..|rs| - 1]);
    }
  }

  /** One step of the fold: a successful gather of a non-empty run combines
      the gather of all but the last result with the last result. */
  lemma GatherStep(rs: seq<Result<ScanTypes>>)
    requires |rs| > 0 && Gather(rs).Ok?
    ensures forall f :: 0 <= f < |rs| - 1 ==> rs[..|rs| - 1][f] == rs[f]
    ensures Gather(rs[..|rs| - 1]).Ok? && rs[|rs| - 1].Ok?
    ensures Gather(rs).value == Combine(Gather(rs[..|rs| - 1]).value, rs[|rs| - 1].value)
  {
  }

  /** A later result's default for a type replaces an earlier one. */
  lemma GatherLaterWins(rs: seq<Result<ScanTypes>>, last: Result<ScanTypes>, t: string)
    requires Gather(rs).Ok? && last.Ok? && t in last.value.defaults
    ensures Gather(rs + [last]).Ok?
    ensures Gather(rs + [last]).value.defaults[t] == last.value.defaults[t]
  {
    assert (rs + [last])[..|rs|] == rs;
  }

  /** getScanTypes: every file scanned in order, the first failure ending
      the scan. */
  function GetScanTypes(files: seq<seq<string>>): (r: Result<ScanTypes>)
    ensures r.Ok? <==> forall f :: 0 <= f < |files| ==> ScanFile(files[f]).Ok?
    ensures r.Fail? ==> exists f :: FirstFailingFile(files, f) && r.error == ScanFile(files[f]).error
  {
    var rs := Scans(files);
    assert forall f :: FirstFailure(rs, f) ==> FirstFailingFile(files, f);
    Gather(rs)
  }

  /** File `f` is the first file whose scan fails. */
  ghost predicate FirstFailingFile(files: seq<seq<string>>, f: int) {
    && 0 <= f < |files|
    && ScanFile(files[f]).Fail?
    && forall g :: 0 <= g < f ==> ScanFile(files[g]).Ok?
  }

  /** Every file's own scan, in file order. */
  function Scans(files: seq<seq<string>>): (rs: seq<Result<ScanTypes>>)
    ensures |rs| == |files|
    ensures forall f :: 0 <= f < |files| ==> rs[f] == ScanFile(files[f])
  {
    seq(|files|, f requires 0 <= f < |files| => ScanFile(files[f]))
  }

  lemma ScansAppend(files: seq<seq<string>>, lines: seq<string>)
    ensures Scans(files + [lines]) == Scans(files) + [ScanFile(lines)]
  {
    var all := files + [lines];
    forall f | 0 <= f < |files| ensures Scans(all)[f] == Scans(files)[f] {
      assert all[f] == files[f];
    }
    assert all[|files|] == lines;
  }

  /** The collected names are exactly the struct names some file declares,
      the collected defaults exactly the types some file's markers give a
      default, and the collected calls exactly those some file's markers
      name. */
  lemma GetScanTypesMembers(files: seq<seq<string>>)
    requires GetScanTypes(files).Ok?
    ensures forall t :: t in GetScanTypes(files).value.types <==>
      exists f :: 0 <= f < |files| && DeclaresStruct(files[f], t)
    ensures forall t :: t in GetScanTypes(files).value.defaults <==>
      exists f :: 0 <= f < |files| && DeclaresDefault(files[f], t)
    ensures forall m :: m in GetScanTypes(files).value.executes <==>
      exists f :: 0 <= f < |files| && DeclaresExecute(files[f], m)
  {
    CollectedTypes(files);
    CollectedDefaults(files);
    CollectedExecutes(files);
  }

  lemma CollectedTypes(files: seq<seq<string>>)
    requires GetScanTypes(files).Ok?
    ensures forall t :: t in GetScanTypes(files).value.types <==>
      exists f :: 0 <= f < |files| && DeclaresStruct(files[f], t)
  {
    var rs := Scans(files);
    GatherTypes(rs);
    forall f | 0 <= f < |files| ensures forall t :: t in rs[f].value.types <==> DeclaresStruct(files[f], t) {
      ScanFileMembers(files[f]);
    }
  }

  lemma CollectedDefaults(files: seq<seq<string>>)
    requires GetScanTypes(files).Ok?
    ensures forall t :: t in GetScanTypes(files).value.defaults <==>
      exists f :: 0 <= f < |files| && DeclaresDefault(files[f], t)
  {
    var rs := Scans(files);
    GatherDefaults(rs);
    forall f | 0 <= f < |files| ensures forall t :: t in rs[f].value.defaults <==> DeclaresDefault(files[f], t) {
      ScanFileMembers(files[f]);
    }
  }

  lemma CollectedExecutes(files: seq<seq<string>>)
    requires GetScanTypes(files).Ok?
    ensures forall m :: m in GetScanTypes(files).value.executes <==>
      exists f :: 0 <= f < |files| && DeclaresExecute(files[f], m)
  {
    var rs := Scans(files);
    GatherExecutes(rs);
    forall f | 0 <= f < |files| ensures forall m :: m in rs[f].value.executes <==> DeclaresExecute(files[f], m) {
      ScanFileMembers(files[f]);
    }
  }

  /** A later file's default for a type replaces an earlier one. */
  lemma GetScanTypesLaterWins(files: seq<seq<string>>, lines: seq<string>, t: string)
    requires GetScanTypes(files).Ok? && ScanFile(lines).Ok?
    requires t in ScanFile(lines).value.defaults
    ensures GetScanTypes(files + [lines]).Ok?
    ensures GetScanTypes(files + [lines]).value.defaults[t] == ScanFile(lines).value.defaults[t]
  {
    ScansAppend(files, lines);
    GatherLaterWins(Scans(files), ScanFile(lines), t);
  }
}
