/**
 The generator's two one-line directives. A `//@DefaultConfig` line is
 followed by a declaration `func Make() T ...`: the default value of type `T`
 is the call `Make()`. A `//@AutoExecute` line is followed by `func Run() ...`:
 `Run()` is to be called at start-up. In both cases the source splits the
 following line at single spaces and picks words by position.
 */
module Directives {
  import opened Results
  import opened Text
  import opened Assoc

  const DefaultConfigMarker := "//@DefaultConfig"
  const AutoExecuteMarker := "//@AutoExecute"

  /** A marker on the last line: the source then reads past the end of the
      file. Markers are read in line order after they are collected, so this
      is the only marker that can fail, and it fails after all others. */
  predicate MarkerOnLast(lines: seq<string>, marker: string) {
    |lines| > 0 && Contains(lines[|lines| - 1], marker)
  }

  // ---------------------------------------------------------------------
  // Default values

  /** The default-value assignment a declaration line yields: its third
      word is the type, its second the call. Fewer than three words yield
      nothing. */
  function DefaultEntry(next: string): Option<(string, string)>
  {
    var words := Split(next, ' ');
    if |words| >= 3 then Some((words[2], words[1])) else None
  }

  /** A declaration written word by word yields its third and second word. */
  lemma DefaultEntryOfWords(words: seq<string>)
    requires |words| >= 3
    requires forall i :: 0 <= i < |words| ==> ' ' !in words[i]
    ensures DefaultEntry(Join(words, " ")) == Some((words[2], words[1]))
  {
    SplitJoin(words, ' ');
  }

  /** The assignment made for line `i`: the entry of the next line when line
      `i` carries the marker, nothing otherwise. */
  function DefaultAt(lines: seq<string>, i: nat): Option<(string, string)>
    requires i < |lines|
  {
    if i + 1 < |lines| && Contains(lines[i], DefaultConfigMarker) then DefaultEntry(lines[i + 1])
    else None
  }

  /** The line after marker line `i` assigns the default of type `t`. */
  ghost predicate DefaultDeclaredAt(lines: seq<string>, i: int, t: string) {
    && 0 <= i && i + 1 < |lines|
    && Contains(lines[i], DefaultConfigMarker)
    && DefaultEntry(lines[i + 1]).Some?
    && DefaultEntry(lines[i + 1]).value.0 == t
  }

  /** The assignments of getDefaultConfig's second loop, in line order. */
  function DefaultEntries(lines: seq<string>): (r: seq<Option<(string, string)>>)
    ensures |r| == |lines|
    ensures forall i, t :: 0 <= i < |lines| ==>
      (DefaultDeclaredAt(lines, i, t) <==> r[i].Some? && r[i].value.0 == t)
  {
    seq(|lines|, i requires 0 <= i < |lines| => DefaultAt(lines, i))
  }

  /** getDefaultConfig: type name to the call that makes its default. Fails
      exactly when a marker is on the last line; otherwise a type has a
      default exactly when some marker's next line declares it. */
  function GetDefaultConfig(lines: seq<string>): (r: Result<map<string, string>>)
    ensures r.Fail? <==> MarkerOnLast(lines, DefaultConfigMarker)
    ensures r.Fail? ==> r.error == MarkerOnLastLine(|lines| - 1)
    ensures r.Ok? ==> forall t :: t in r.value <==> exists i :: DefaultDeclaredAt(lines, i, t)
  {
    if MarkerOnLast(lines, DefaultConfigMarker) then Fail(MarkerOnLastLine(|lines| - 1))
    else
      var es := DefaultEntries(lines);
      var m := FromEntries(es);
      forall t | t in m ensures exists i :: DefaultDeclaredAt(lines, i, t) {
        var i :| 0 <= i < |es| && es[i].Some? && es[i].value.0 == t;
        assert DefaultDeclaredAt(lines, i, t);
      }
      forall t | exists i :: DefaultDeclaredAt(lines, i, t) ensures t in m {
        var i :| DefaultDeclaredAt(lines, i, t);
        assert es[i].Some? && es[i].value.0 == t;
      }
      Ok(m)
  }

  /** When a type is declared by several markers, the last one wins. */
  lemma GetDefaultConfigLastWins(lines: seq<string>, i: nat, t: string)
    requires !MarkerOnLast(lines, DefaultConfigMarker)
    requires DefaultDeclaredAt(lines, i, t)
    requires forall j :: i < j ==> !DefaultDeclaredAt(lines, j, t)
    ensures t in GetDefaultConfig(lines).value
    ensures GetDefaultConfig(lines).value[t] == DefaultEntry(lines[i + 1]).value.1
  {
    var es := DefaultEntries(lines);
    FromEntriesLastWins(es);
    forall j | i < j < |es| && es[j].Some? ensures es[j].value.0 != t {
      assert !DefaultDeclaredAt(lines, j, t);
    }
    assert LastFor(es, i);
  }

  // ---------------------------------------------------------------------
  // Start-up calls

  /** The call a declaration line yields: its second word, if any. */
  function ExecuteEntry(next: string): Option<string>
  {
    var words := Split(next, ' ');
    if |words| >= 2 then Some(words[1]) else None
  }

  /** A declaration written word by word yields its second word. */
  lemma ExecuteEntryOfWords(words: seq<string>)
    requires |words| >= 2
    requires forall i :: 0 <= i < |words| ==> ' ' !in words[i]
    ensures ExecuteEntry(Join(words, " ")) == Some(words[1])
  {
    SplitJoin(words, ' ');
  }

  /** The call contributed by line `i`, if it carries the marker. */
  function ExecuteAt(lines: seq<string>, i: nat): Option<string>
    requires i < |lines|
  {
    if i + 1 < |lines| && Contains(lines[i], AutoExecuteMarker) then ExecuteEntry(lines[i + 1])
    else None
  }

  /** The calls contributed by the first `n` lines, in line order. */
  function ExecuteEntries(lines: seq<string>, n: nat): (r: seq<Option<string>>)
    requires n <= |lines|
    ensures |r| == n
    ensures forall i :: 0 <= i < n ==> r[i] == ExecuteAt(lines, i)
  {
    if n == 0 then [] else ExecuteEntries(lines, n - 1) + [ExecuteAt(lines, n - 1)]
  }

  /** The line after marker line `i` names the call `m`. */
  ghost predicate ExecuteDeclaredAt(lines: seq<string>, i: int, m: string) {
    && 0 <= i && i + 1 < |lines|
    && Contains(lines[i], AutoExecuteMarker)
    && ExecuteEntry(lines[i + 1]) == Some(m)
  }

  /** The start-up calls of a file, in line order; an error exactly when a
      marker is on the last line. A text is a call exactly when the line
      after some marker names it. */
  function AutoExecuteCalls(lines: seq<string>): (r: Result<seq<string>>)
    ensures r.Fail? <==> MarkerOnLast(lines, AutoExecuteMarker)
    ensures r.Fail? ==> r.error == MarkerOnLastLine(|lines| - 1)
    ensures r.Ok? ==> forall m :: m in r.value <==> exists i :: ExecuteDeclaredAt(lines, i, m)
  {
    if MarkerOnLast(lines, AutoExecuteMarker) then Fail(MarkerOnLastLine(|lines| - 1))
    else
      var es := ExecuteEntries(lines, |lines|);
      var calls := Values(es);
      forall m | m in calls ensures exists i :: ExecuteDeclaredAt(lines, i, m) {
        var i :| 0 <= i < |es| && es[i] == Some(m);
        assert ExecuteDeclaredAt(lines, i, m);
      }
      forall m | exists i :: ExecuteDeclaredAt(lines, i, m) ensures m in calls {
        var i :| ExecuteDeclaredAt(lines, i, m);
        assert es[i] == Some(m);
      }
      Ok(calls)
  }

  /** Extending the scan by line `i` appends that line's call, if any. */
  lemma ExecuteStep(lines: seq<string>, i: nat)
    requires i < |lines|
    ensures Values(ExecuteEntries(lines, i + 1))
      == Values(ExecuteEntries(lines, i)) + (if ExecuteAt(lines, i).Some? then [ExecuteAt(lines, i).value] else [])
  {
    assert ExecuteEntries(lines, i + 1) == ExecuteEntries(lines, i) + [ExecuteAt(lines, i)];
    ValuesAppend(ExecuteEntries(lines, i), [ExecuteAt(lines, i)]);
    assert [ExecuteAt(lines, i)][1..] == [];
  }

  /** A line naming call `m` appends it. */
  lemma ExecuteStepSome(lines: seq<string>, i: nat, m: string)
    requires i < |lines| && ExecuteAt(lines, i) == Some(m)
    ensures Values(ExecuteEntries(lines, i + 1)) == Values(ExecuteEntries(lines, i)) + [m]
  {
    ExecuteStep(lines, i);
  }

  /** A line naming no call appends nothing. */
  lemma ExecuteStepNone(lines: seq<string>, i: nat)
    requires i < |lines| && ExecuteAt(lines, i) == None
    ensures Values(ExecuteEntries(lines, i + 1)) == Values(ExecuteEntries(lines, i))
  {
    ExecuteStep(lines, i);
    assert Values(ExecuteEntries(lines, i)) + [] == Values(ExecuteEntries(lines, i));
  }

  /** Without a marker on the last line the calls are those of every line. */
  lemma AutoExecuteCallsOk(lines: seq<string>)
    requires !MarkerOnLast(lines, AutoExecuteMarker)
    ensures AutoExecuteCalls(lines) == Ok(Values(ExecuteEntries(lines, |lines|)))
  {
  }

  /** getAutoExecute as a loop over the lines: a marker line contributes the
      second word of the next line; a marker on the last line is an error. */
  method GetAutoExecute(lines: seq<string>) returns (r: Result<seq<string>>)
    ensures r == AutoExecuteCalls(lines)
  {
    var methods: seq<string> := [];
    var i := 0;
    while i < |lines|
      invariant 0 <= i <= |lines|
      invariant methods == Values(ExecuteEntries(lines, i))
      invariant !(0 < i == |lines| && Contains(lines[i - 1], AutoExecuteMarker))
    {
      if Contains(lines[i], AutoExecuteMarker) {
        if i + 1 == |lines| {
          return Fail(MarkerOnLastLine(i));
        }
        var words := Split(lines[i + 1], ' ');
        if |words| >= 2 {
          ExecuteStepSome(lines, i, words[1]);
          methods := methods + [words[1]];
        } else {
          ExecuteStepNone(lines, i);
        }
      } else {
        ExecuteStepNone(lines, i);
      }
      i := i + 1;
    }
    AutoExecuteCallsOk(lines);
    return Ok(methods);
  }
}
