/**
 The last step of the generator: the loader skeleton, split into lines, gets
 the generated mergeConfig, initDefaultConfig and autoExecute inserted right
 after the lines carrying their insertion markers. Each marker must stand on
 exactly one line, and no two markers may share a line.
 */
module Splice {
  import opened Results
  import opened Text
  import opened Assoc
  import opened Imports
  import opened CodeGen

  const MergeGenerate := "//@MergeConfigGenerate"
  const DefaultGenerate := "//@DefaultConfigGenerate"
  const ExecuteGenerate := "//@AutoExecuteGenerate"

  /** The line text a marker is written as in the loader skeleton. */
  function MarkerText(m: Marker): string {
    Pick(m, MergeGenerate, DefaultGenerate, ExecuteGenerate)
  }

  /** The marker lines found so far, -1 for a marker not yet seen. */
  datatype Slots = Slots(merge: int, config: int, execute: int)

  /** The three generated fragments. */
  datatype Fragments = Fragments(merge: string, config: string, execute: string)

  /** Two different lines carry the marker. */
  ghost predicate Repeated(template: seq<string>, p: string) {
    exists i, j :: 0 <= i < j < |template| && Contains(template[i], p) && Contains(template[j], p)
  }

  /** Exactly one line carries the marker. */
  ghost predicate Unique(template: seq<string>, p: string) {
    FirstLineWith(template, p, 0) != -1 && !Repeated(template, p)
  }

  /** Among the first `i` lines, `x` is the only one carrying the marker, or
      -1 if none does. */
  ghost predicate SlotSoFar(template: seq<string>, p: string, i: nat, x: int) {
    && i <= |template|
    && (x == -1 ==> forall j :: 0 <= j < i ==> !Contains(template[j], p))
    && (x != -1 ==>
          && 0 <= x < i && x == FirstLineWith(template, p, 0)
          && forall j :: 0 <= j < i && j != x ==> !Contains(template[j], p))
  }

  /** The first line is the marker's line when the first `i` lines hold it. */
  lemma FirstLineSoFar(template: seq<string>, p: string, x: nat, i: nat)
    requires x < i <= |template| && Contains(template[x], p)
    requires forall j :: 0 <= j < i && j != x ==> !Contains(template[j], p)
    ensures FirstLineWith(template, p, 0) == x
  {
  }

  /** One marker's step of the scan at line `i`: the marker's slot becomes
      `i`, or the scan fails if the marker was seen before. */
  method Note(template: seq<string>, pm: string, pc: string, pe: string, m: Marker, i: nat, x: int)
    returns (r: Result<int>)
    requires i < |template| && SlotSoFar(template, Pick(m, pm, pc, pe), i, x)
    ensures r.Fail? <==> Contains(template[i], Pick(m, pm, pc, pe)) && x != -1
    ensures r.Fail? ==> r.error == DuplicateMarker(m, i) && DuplicateError(template, pm, pc, pe, i, r.error)
    ensures r.Ok? ==> SlotSoFar(template, Pick(m, pm, pc, pe), i + 1, r.value)
  {
    var p := Pick(m, pm, pc, pe);
    if Contains(template[i], p) {
      if x != -1 {
        DuplicateFound(template, p, i, x);
        return Fail(DuplicateMarker(m, i));
      }
      FirstLineSoFar(template, p, i, i + 1);
      return Ok(i);
    }
    return Ok(x);
  }

  /** Line `i` carries the marker again: the marker is repeated, and its
      first line comes before `i`. */
  ghost predicate DuplicateAt(template: seq<string>, p: string, i: int) {
    && 0 <= i < |template|
    && Contains(template[i], p)
    && Repeated(template, p)
    && 0 <= FirstLineWith(template, p, 0) < i
  }

  /** The number of slots in front of line `i`. */
  function Before(s: Slots, i: int): nat {
    (if 0 <= s.merge < i then 1 else 0)
    + (if 0 <= s.config < i then 1 else 0)
    + (if 0 <= s.execute < i then 1 else 0)
  }

  /** The slots are lines of the template and all different. */
  predicate Distinct(s: Slots, n: nat) {
    && 0 <= s.merge < n && 0 <= s.config < n && 0 <= s.execute < n
    && s.merge != s.config && s.merge != s.execute && s.config != s.execute
  }

  /** What is written after line `i`: the fragment whose slot it is. */
  function After(s: Slots, f: Fragments, i: int): seq<string> {
    (if i == s.merge then [f.merge] else [])
    + (if i == s.config then [f.config] else [])
    + (if i == s.execute then [f.execute] else [])
  }

  /** The output of the first `n` template lines: each line, followed by
      the fragments whose slot it is. */
  function Spliced(template: seq<string>, s: Slots, f: Fragments, n: nat): (r: seq<string>)
    requires n <= |template|
    ensures |r| == n + Before(s, n)
  {
    if n == 0 then []
    else Spliced(template, s, f, n - 1) + [template[n - 1]] + After(s, f, n - 1)
  }

  lemma BeforeGrows(s: Slots, i: int, j: int)
    requires i <= j
    ensures Before(s, i) <= Before(s, j)
  {
  }

  /** Template line `i` lands at `i` plus the number of fragments inserted
      in front of it. */
  lemma {:induction false} SplicedLine(template: seq<string>, s: Slots, f: Fragments, n: nat, i: nat)
    requires i < n <= |template|
    ensures i + Before(s, i) < |Spliced(template, s, f, n)|
    ensures Spliced(template, s, f, n)[i + Before(s, i)] == template[i]
  {
    var prev := Spliced(template, s, f, n - 1);
    if i < n - 1 {
      SplicedLine(template, s, f, n - 1, i);
      assert Spliced(template, s, f, n)[..|prev|] == prev;
    } else {
      assert Spliced(template, s, f, n)[|prev|] == template[n - 1];
    }
  }

  /** Whatever is inserted after line `x` follows it immediately. */
  lemma {:induction false} SplicedAfter(template: seq<string>, s: Slots, f: Fragments, n: nat, x: nat)
    requires x < n <= |template| && |After(s, f, x)| > 0
    ensures x + Before(s, x) + 1 < |Spliced(template, s, f, n)|
    ensures Spliced(template, s, f, n)[x + Before(s, x) + 1] == After(s, f, x)[0]
  {
    var prev := Spliced(template, s, f, n - 1);
    if x < n - 1 {
      SplicedAfter(template, s, f, n - 1, x);
      BeforeGrows(s, x + 1, n - 1);
      assert Spliced(template, s, f, n)[..|prev|] == prev;
    } else {
      assert Spliced(template, s, f, n)[|prev| + 1] == After(s, f, x)[0];
    }
  }

  /** `out` is the template with the fragments inserted at the slots: every
      template line in order, each shifted by the fragments in front of it,
      and each fragment right after its slot's line. */
  predicate Shaped(template: seq<string>, s: Slots, f: Fragments, out: seq<string>) {
    && Distinct(s, |template|)
    && |out| == |template| + 3
    && LinesPlaced(template, s, out)
    && FragmentsPlaced(s, f, out)
  }

  /** Every template line `i` stands at `i` plus the fragments in front of it. */
  predicate LinesPlaced(template: seq<string>, s: Slots, out: seq<string>) {
    forall i :: 0 <= i < |template| ==> i + Before(s, i) < |out| && out[i + Before(s, i)] == template[i]
  }

  /** Each fragment stands right after its slot's line. */
  predicate FragmentsPlaced(s: Slots, f: Fragments, out: seq<string>) {
    && 0 <= s.merge + Before(s, s.merge) + 1 < |out| && out[s.merge + Before(s, s.merge) + 1] == f.merge
    && 0 <= s.config + Before(s, s.config) + 1 < |out| && out[s.config + Before(s, s.config) + 1] == f.config
    && 0 <= s.execute + Before(s, s.execute) + 1 < |out| && out[s.execute + Before(s, s.execute) + 1] == f.execute
  }

  /** The scan of writeResultToFile: the lines in order, on each line the
      markers in the order merge, defaults, execute. A marker on a second line
      fails at that line; otherwise every marker's slot is its line, or -1. */
  method FindMarkers(template: seq<string>) returns (r: Result<Slots>)
    ensures r.Ok? <==>
      !Repeated(template, MergeGenerate) && !Repeated(template, DefaultGenerate) && !Repeated(template, ExecuteGenerate)
    ensures r.Ok? ==> r.value == Lines(template)
    ensures r.Fail? ==>
      && r.error.DuplicateMarker?
      && r.error.line < |template|
      && Contains(template[r.error.line], MarkerText(r.error.marker))
      && 0 <= FirstLineWith(template, MarkerText(r.error.marker), 0) < r.error.line
  {
    r := ScanSlots(template, MergeGenerate, DefaultGenerate, ExecuteGenerate);
  }

  /** The text standing for marker `m` when the three markers are written
      `pm`, `pc` and `pe`. */
  function Pick(m: Marker, pm: string, pc: string, pe: string): string {
    match m
    case MergeMarker => pm
    case DefaultsMarker => pc
    case ExecuteMarker => pe
  }

  /** The three slots after the first `i` lines. */
  ghost predicate SlotsSoFar(template: seq<string>, pm: string, pc: string, pe: string, i: nat, s: Slots) {
    && SlotSoFar(template, pm, i, s.merge)
    && SlotSoFar(template, pc, i, s.config)
    && SlotSoFar(template, pe, i, s.execute)
  }

  /** `err` reports line `i` as carrying a marker seen before. */
  ghost predicate DuplicateError(template: seq<string>, pm: string, pc: string, pe: string, i: int, err: Error) {
    && err.DuplicateMarker?
    && err.line == i
    && DuplicateAt(template, Pick(err.marker, pm, pc, pe), i)
  }

  /** The scan's work on line `i`: the three markers in the order merge,
      defaults, execute; the first one met a second time stops the scan. */
  method ScanLine(template: seq<string>, pm: string, pc: string, pe: string, i: nat, s: Slots) returns (r: Result<Slots>)
    requires i < |template| && SlotsSoFar(template, pm, pc, pe, i, s)
    ensures r.Ok? ==> SlotsSoFar(template, pm, pc, pe, i + 1, r.value)
    ensures r.Fail? ==> DuplicateError(template, pm, pc, pe, i, r.error)
  {
    var m := Note(template, pm, pc, pe, MergeMarker, i, s.merge);
    if m.Fail? {
      return Fail(m.error);
    }
    var c := Note(template, pm, pc, pe, DefaultsMarker, i, s.config);
    if c.Fail? {
      return Fail(c.error);
    }
    var e := Note(template, pm, pc, pe, ExecuteMarker, i, s.execute);
    if e.Fail? {
      return Fail(e.error);
    }
    return Ok(Slots(m.value, c.value, e.value));
  }

  /** The scan of FindMarkers for any three marker texts. */
  method ScanSlots(template: seq<string>, pm: string, pc: string, pe: string) returns (r: Result<Slots>)
    ensures r.Ok? <==> !Repeated(template, pm) && !Repeated(template, pc) && !Repeated(template, pe)
    ensures r.Ok? ==> r.value == Slots(FirstLineWith(template, pm, 0),
      FirstLineWith(template, pc, 0), FirstLineWith(template, pe, 0))
    ensures r.Fail? ==>
      && r.error.DuplicateMarker?
      && r.error.line < |template|
      && Contains(template[r.error.line], Pick(r.error.marker, pm, pc, pe))
      && 0 <= FirstLineWith(template, Pick(r.error.marker, pm, pc, pe), 0) < r.error.line
  {
    var s := Slots(-1, -1, -1);
    var i := 0;
    while i < |template|
      invariant 0 <= i <= |template|
      invariant SlotsSoFar(template, pm, pc, pe, i, s)
    {
      var next := ScanLine(template, pm, pc, pe, i, s);
      if next.Fail? {
        DuplicateReported(template, pm, pc, pe, i, next.error);
        return Fail(next.error);
      }
      s := next.value;
      i := i + 1;
    }
    SlotsAreLines(template, pm, pc, pe, s);
    return Ok(s);
  }

  /** A duplicate reported at line `i` names a repeated marker, its line and
      the earlier line that marker first stood on. */
  lemma DuplicateReported(template: seq<string>, pm: string, pc: string, pe: string, i: int, err: Error)
    requires DuplicateError(template, pm, pc, pe, i, err)
    ensures Repeated(template, pm) || Repeated(template, pc) || Repeated(template, pe)
    ensures err.DuplicateMarker? && err.line < |template|
    ensures Contains(template[err.line], Pick(err.marker, pm, pc, pe))
    ensures 0 <= FirstLineWith(template, Pick(err.marker, pm, pc, pe), 0) < err.line
  {
    var p := Pick(err.marker, pm, pc, pe);
    assert p == pm || p == pc || p == pe;
  }

  /** After the last line every slot is its marker's first line, and no
      marker is repeated. */
  lemma SlotsAreLines(template: seq<string>, pm: string, pc: string, pe: string, s: Slots)
    requires SlotsSoFar(template, pm, pc, pe, |template|, s)
    ensures s == Slots(FirstLineWith(template, pm, 0), FirstLineWith(template, pc, 0), FirstLineWith(template, pe, 0))
    ensures !Repeated(template, pm) && !Repeated(template, pc) && !Repeated(template, pe)
  {
    SlotIsLine(template, pm, s.merge);
    SlotIsLine(template, pc, s.config);
    SlotIsLine(template, pe, s.execute);
  }

  /** A marker met again at line `i` after its slot `x` is repeated, and its
      first line is `x`. */
  lemma DuplicateFound(template: seq<string>, p: string, i: nat, x: int)
    requires i < |template| && SlotSoFar(template, p, i, x)
    requires x != -1 && Contains(template[i], p)
    ensures DuplicateAt(template, p, i)
  {
    assert Contains(template[x], p);
  }

  /** A failure of the marker checks, in the order they run: a marker
      seen on a second line, else a marker missing, else two markers on
      one line. */
  ghost predicate MarkerFailure(template: seq<string>, e: Error) {
    || (&& e.DuplicateMarker? && e.line < |template|
        && Contains(template[e.line], MarkerText(e.marker))
        && 0 <= FirstLineWith(template, MarkerText(e.marker), 0) < e.line)
    || (&& !Repeated(template, MergeGenerate) && !Repeated(template, DefaultGenerate)
        && !Repeated(template, ExecuteGenerate)
        && (e == MissingMarker <==>
              Lines(template).merge == -1 || Lines(template).config == -1 || Lines(template).execute == -1)
        && (e == MissingMarker || e == MarkerConflict))
  }

  /** writeResultToFile: after the scan, a missing marker is an error, then
      two markers on one line; otherwise every fragment is inserted right
      after its marker's line. */
  method WriteResult(template: seq<string>, f: Fragments) returns (r: Result<seq<string>>)
    ensures r.Ok? <==> MarkersFine(template)
    ensures r.Fail? && r.error.DuplicateMarker? ==>
      && r.error.line < |template|
      && Contains(template[r.error.line], MarkerText(r.error.marker))
      && 0 <= FirstLineWith(template, MarkerText(r.error.marker), 0) < r.error.line
    ensures r.Fail? && !r.error.DuplicateMarker? ==>
      !Repeated(template, MergeGenerate) && !Repeated(template, DefaultGenerate) && !Repeated(template, ExecuteGenerate)
    ensures r == Fail(MissingMarker) <==>
      && !Repeated(template, MergeGenerate) && !Repeated(template, DefaultGenerate) && !Repeated(template, ExecuteGenerate)
      && (Lines(template).merge == -1 || Lines(template).config == -1 || Lines(template).execute == -1)
    ensures r.Fail? ==> MarkerFailure(template, r.error)
    ensures r.Ok? ==> r.value == Spliced(template, Lines(template), f, |template|)
    ensures r.Ok? ==> Shaped(template, Lines(template), f, r.value)
  {
    var found := FindMarkers(template);
    if found.Fail? {
      return Fail(found.error);
    }
    var s := found.value;
    if s.merge == -1 || s.config == -1 || s.execute == -1 {
      return Fail(MissingMarker);
    }
    if s.merge == s.config || s.merge == s.execute || s.config == s.execute {
      return Fail(MarkerConflict);
    }
    SplicedShape(template, s, f);
    return Ok(Spliced(template, s, f, |template|));
  }

  /** The slot a complete scan ends with is the marker's first line, and no
      other line carries the marker. */
  lemma SlotIsLine(template: seq<string>, p: string, x: int)
    requires SlotSoFar(template, p, |template|, x)
    ensures x == FirstLineWith(template, p, 0)
    ensures !Repeated(template, p)
  {
  }

  /** The marker lines of a template: each marker's first line, -1 if
      absent. */
  function Lines(template: seq<string>): Slots {
    Slots(FirstLineWith(template, MergeGenerate, 0),
      FirstLineWith(template, DefaultGenerate, 0),
      FirstLineWith(template, ExecuteGenerate, 0))
  }

  /** After a successful splice the output has three more lines than the
      template: every template line in order, each fragment right after its
      marker's line. */
  lemma SplicedShape(template: seq<string>, s: Slots, f: Fragments)
    requires Distinct(s, |template|)
    ensures Shaped(template, s, f, Spliced(template, s, f, |template|))
  {
    AfterSlots(s, f, |template|);
    SplicedLines(template, s, f);
    SplicedFragments(template, s, f);
  }

  /** Every template line of the output stands where it belongs. */
  lemma SplicedLines(template: seq<string>, s: Slots, f: Fragments)
    ensures LinesPlaced(template, s, Spliced(template, s, f, |template|))
  {
    forall i | 0 <= i < |template|
      ensures i + Before(s, i) < |Spliced(template, s, f, |template|)|
      ensures Spliced(template, s, f, |template|)[i + Before(s, i)] == template[i]
    {
      SplicedLine(template, s, f, |template|, i);
    }
  }

  /** Every fragment of the output stands right after its slot's line. */
  lemma SplicedFragments(template: seq<string>, s: Slots, f: Fragments)
    requires Distinct(s, |template|)
    ensures FragmentsPlaced(s, f, Spliced(template, s, f, |template|))
  {
    var n := |template|;
    AfterSlots(s, f, n);
    SplicedFragment(template, s, f, s.merge, f.merge);
    SplicedFragment(template, s, f, s.config, f.config);
    SplicedFragment(template, s, f, s.execute, f.execute);
  }

  /** The fragment inserted alone after line `x` stands right after it. */
  lemma SplicedFragment(template: seq<string>, s: Slots, f: Fragments, x: nat, frag: string)
    requires x < |template| && After(s, f, x) == [frag]
    ensures 0 <= x + Before(s, x) + 1 < |Spliced(template, s, f, |template|)|
    ensures Spliced(template, s, f, |template|)[x + Before(s, x) + 1] == frag
  {
    SplicedAfter(template, s, f, |template|, x);
  }

  /** With distinct slots, each slot's line is followed by its own fragment
      alone, and all three slots lie in front of the end. */
  lemma AfterSlots(s: Slots, f: Fragments, n: nat)
    requires Distinct(s, n)
    ensures After(s, f, s.merge) == [f.merge]
    ensures After(s, f, s.config) == [f.config]
    ensures After(s, f, s.execute) == [f.execute]
    ensures Before(s, n) == 3
  {
  }

  /** Every marker stands on exactly one line, each on its own. */
  ghost predicate MarkersFine(template: seq<string>) {
    && Unique(template, MergeGenerate) && Unique(template, DefaultGenerate) && Unique(template, ExecuteGenerate)
    && Distinct(Lines(template), |template|)
  }

  /** Every default's type has a usable alias. */
  ghost predicate AllAliased(st: ScanTypes) {
    forall t :: t in st.defaults ==> HasAlias(st.aliases, t)
  }

  /** The error generateConfigs panics with: a default whose type has no
      usable alias. */
  ghost predicate AliasFailure(st: ScanTypes, e: Error) {
    e.EmptyAlias? && e.name in st.defaults && !HasAlias(st.aliases, e.name)
  }

  /** The fragments for what the scan gathered, spliced into the loader
      skeleton's lines. The mergeConfig fragment and the autoExecute
      fragment are fixed by the scan; initDefaultConfig lists the defaults in
      whatever order the map iteration takes. */
  method Emit(st: ScanTypes, template: seq<string>) returns (r: Result<seq<string>>)
    ensures r.Ok? <==> AllAliased(st) && MarkersFine(template)
    ensures !AllAliased(st) ==> r.Fail? && AliasFailure(st, r.error)
    ensures AllAliased(st) && r.Fail? ==> MarkerFailure(template, r.error)
    ensures r.Ok? ==> exists order ::
      && Enumerates(order, st.defaults)
      && GenerateConfigs(st.defaults, st.aliases, order).Ok?
      && Shaped(template, Lines(template), Fragments(GenerateFunc(st.types),
           GenerateConfigs(st.defaults, st.aliases, order).value, GenerateExecute(st.executes)), r.value)
  {
    r := EmitWith(st, template, GenerateFunc(st.types));
  }

  /** The splice of Emit, for a given mergeConfig fragment. */
  method EmitWith(st: ScanTypes, template: seq<string>, merge: string) returns (r: Result<seq<string>>)
    ensures r.Ok? <==> AllAliased(st) && MarkersFine(template)
    ensures !AllAliased(st) ==> r.Fail? && AliasFailure(st, r.error)
    ensures AllAliased(st) && r.Fail? ==> MarkerFailure(template, r.error)
    ensures r.Ok? ==> exists order ::
      && Enumerates(order, st.defaults)
      && GenerateConfigs(st.defaults, st.aliases, order).Ok?
      && Shaped(template, Lines(template), Fragments(merge,
           GenerateConfigs(st.defaults, st.aliases, order).value, GenerateExecute(st.executes)), r.value)
  {
    var order := SomeListing(st.defaults.Keys);
    ListingEnumerates(order, st.defaults);
    GenerateConfigsAnyOrder(st.defaults, st.aliases, order);
    var configs := GenerateConfigs(st.defaults, st.aliases, order);
    if configs.Fail? {
      return Fail(configs.error);
    }
    var executes := GenerateExecute(st.executes);
    var f := Fragments(merge, configs.value, executes);
    r := WriteResult(template, f);
  }

  /** Generator.Begin after the files are listed: scan them, then emit. A
      failing scan stops the generator before anything is written. */
  method Generate(files: seq<seq<string>>, template: seq<string>) returns (r: Result<seq<string>>)
    ensures GetScanTypes(files).Fail? ==> r == Fail(GetScanTypes(files).error)
    ensures r.Ok? <==> GetScanTypes(files).Ok? && AllAliased(GetScanTypes(files).value) && MarkersFine(template)
    ensures GetScanTypes(files).Ok? && !AllAliased(GetScanTypes(files).value) ==>
      r.Fail? && AliasFailure(GetScanTypes(files).value, r.error)
    ensures GetScanTypes(files).Ok? && AllAliased(GetScanTypes(files).value) && r.Fail? ==>
      MarkerFailure(template, r.error)
  {
    var scanned := GetScanTypes(files);
    if scanned.Fail? {
      return Fail(scanned.error);
    }
    r := Emit(scanned.value, template);
  }
}
