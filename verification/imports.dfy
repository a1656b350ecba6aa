/**
 The package clause and the import declarations of a scanned file, as the
 type scanner reads them from the normalised lines.
 */
module Imports {
  import opened Results
  import opened Text

  const PackageKeyword := "package"
  const ImportKeyword := "import"
  const Quote := '"'

  // ---------------------------------------------------------------------
  // Package clause

  /** The first line at or after `i` that contains `p`, or -1. */
  function FirstLineWith(lines: seq<string>, p: string, i: nat): (r: int)
    requires i <= |lines|
    ensures r == -1 || (i <= r < |lines| && Contains(lines[r], p))
    ensures r == -1 ==> forall j :: i <= j < |lines| ==> !Contains(lines[j], p)
    ensures r != -1 ==> forall j :: i <= j < r ==> !Contains(lines[j], p)
    decreases |lines| - i
  {
    if i == |lines| then -1
    else if Contains(lines[i], p) then i
    else FirstLineWith(lines, p, i + 1)
  }

  /** Line `j` is the first line containing `package`. */
  ghost predicate FirstPackageLine(lines: seq<string>, j: int) {
    && 0 <= j < |lines|
    && Contains(lines[j], PackageKeyword)
    && forall k :: 0 <= k < j ==> !Contains(lines[k], PackageKeyword)
  }

  /** getPackage: the text after `package ` on the first line containing
      `package`, trimmed. A line too short to hold `package ` fails, as the
      source's slice does; no such line at all is a failure of its own. */
  function GetPackage(lines: seq<string>): (r: Result<string>)
    ensures r == Fail(NoPackage) <==> forall j :: 0 <= j < |lines| ==> !Contains(lines[j], PackageKeyword)
    ensures r.Ok? ==> var j := FirstLineWith(lines, PackageKeyword, 0);
      j != -1 && |lines[j]| >= 8 && r.value == Trim(lines[j][8..])
  {
    var j := FirstLineWith(lines, PackageKeyword, 0);
    if j == -1 then Fail(NoPackage)
    else if |lines[j]| < 8 then Fail(ShortPackageLine(j))
    else Ok(Trim(lines[j][8..]))
  }

  /** The package is read from the first line containing `package`: its
      text after `package `, trimmed, or the short-line failure naming it. */
  lemma GetPackageOfFirstLine(lines: seq<string>, j: int)
    requires FirstPackageLine(lines, j)
    ensures |lines[j]| >= 8 ==> GetPackage(lines) == Ok(Trim(lines[j][8..]))
    ensures |lines[j]| < 8 ==> GetPackage(lines) == Fail(ShortPackageLine(j))
  {
    var k := FirstLineWith(lines, PackageKeyword, 0);
    assert k == j;
  }

  /** A file whose first line is the package clause `package N` yields `N`. */
  lemma PackageClause(name: string, rest: seq<string>)
    requires |name| > 0 && !IsSpace(name[0]) && !IsSpace(name[|name| - 1])
    ensures GetPackage(["package " + name] + rest) == Ok(name)
  {
    var line := "package " + name;
    assert line[..7] == PackageKeyword;
    assert OccursAt(line, PackageKeyword, 0);
    assert line[8..] == name;
    TrimFixed(name);
  }

  /** No line mentioning `package` is a failure of its own kind. */
  lemma GetPackageNoClause(lines: seq<string>)
    requires forall j :: 0 <= j < |lines| ==> !Contains(lines[j], PackageKeyword)
    ensures GetPackage(lines) == Fail(NoPackage)
  {
  }

  // ---------------------------------------------------------------------
  // Import declarations

  /** The line holds exactly one double quote. */
  ghost predicate SingleQuoted(line: string) {
    && Quote in line
    && forall i, j :: 0 <= i < j < |line| && line[i] == Quote ==> line[j] != Quote
  }

  /** The text between the first and the last double quote of a line, or
      None when the line has no quote; a single quote is an error, because
      the source then slices with the start past the end. */
  function QuotedPart(line: string, at: nat): (r: Result<Option<string>>)
    ensures Quote !in line ==> r == Ok(None)
    ensures r.Fail? <==> SingleQuoted(line)
  {
    var first := IndexOf(line, [Quote]);
    var end := LastIndexOfChar(line, Quote);
    IndexOfCharSpec(line, Quote);
    if first == -1 then Ok(None)
    else if first + 1 > end then Fail(SingleQuote(at))
    else Ok(Some(line[first + 1..end]))
  }

  /** The inner loop of getImports from line `index`: `open` records whether
      a `(` has been seen. A quoted line contributes its path and ends a
      single-line import; a line with `)` ends a block; running past the
      last line is an error. */
  function ImportScan(lines: seq<string>, index: nat, open: bool): (r: Result<seq<string>>)
    ensures index >= |lines| ==> r == Fail(UnterminatedImport(index))
    decreases |lines| - index
  {
    if index >= |lines| then Fail(UnterminatedImport(index))
    else
      var line := lines[index];
      var open' := open || Contains(line, "(");
      var quoted :- QuotedPart(line, index);
      match quoted
      case Some(item) =>
        if !open' || Contains(line, ")") then Ok([item])
        else
          var rest :- ImportScan(lines, index + 1, open');
          Ok([item] + rest)
      case None =>
        if Contains(line, ")") then Ok([])
        else ImportScan(lines, index + 1, open')
  }

  /** Line `j` holds the word `import`. */
  ghost predicate ImportLine(lines: seq<string>, j: int) {
    0 <= j < |lines| && Contains(lines[j], ImportKeyword)
  }

  /** Line `j` is the first import line from `i` on whose scan fails. */
  ghost predicate FirstFailingImport(lines: seq<string>, i: int, j: int) {
    && i <= j
    && ImportLine(lines, j)
    && ImportScan(lines, j, false).Fail?
    && forall k :: i <= k < j && ImportLine(lines, k) ==> ImportScan(lines, k, false).Ok?
  }

  /** getImports from line `i` on: every line containing `import` starts a
      scan, and the scans' paths are concatenated in line order. */
  function ImportsFrom(lines: seq<string>, i: nat): (r: Result<seq<string>>)
    requires i <= |lines|
    decreases |lines| - i
  {
    if i == |lines| then Ok([])
    else if Contains(lines[i], ImportKeyword) then
      var here :- ImportScan(lines, i, false);
      var tail :- ImportsFrom(lines, i + 1);
      Ok(here + tail)
    else ImportsFrom(lines, i + 1)
  }

  function GetImports(lines: seq<string>): (r: Result<seq<string>>)
    ensures r.Fail? <==> exists j :: ImportLine(lines, j) && ImportScan(lines, j, false).Fail?
    ensures r.Fail? ==> exists j :: FirstFailingImport(lines, 0, j) && r.error == ImportScan(lines, j, false).error
    ensures r.Ok? ==> forall p :: p in r.value <==>
      exists j :: ImportLine(lines, j) && ImportScan(lines, j, false).Ok? && p in ImportScan(lines, j, false).value
  {
    ImportsFromSpec(lines, 0);
    ImportsFrom(lines, 0)
  }

  /** A quoted import path as it stands on its own line. */
  function Quoted(p: string): string {
    [Quote] + p + [Quote]
  }

  /** An import path: no quote and no parenthesis in it. */
  predicate IsPath(p: string) {
    Quote !in p && '(' !in p && ')' !in p
  }

  lemma QuotedPartOfQuoted(pre: string, p: string, at: nat)
    requires Quote !in pre && Quote !in p
    ensures QuotedPart(pre + Quoted(p), at) == Ok(Some(p))
  {
    var line := pre + Quoted(p);
    assert line[|pre|] == Quote;
    assert line[..|pre|] == pre;
    IndexOfChar(line, Quote, |pre|);
    assert line[|line| - 1] == Quote;
    assert line[|pre| + 1..|line| - 1] == p;
  }

  lemma NoParen(s: string, c: char)
    requires c !in s
    ensures !Contains(s, [c])
  {
    ContainsChar(s, c);
  }

  /** The single-line form `import "p"` yields exactly `p`. */
  lemma SingleLineImport(p: string, rest: seq<string>)
    requires IsPath(p)
    ensures ImportScan(["import " + Quoted(p)] + rest, 0, false) == Ok([p])
  {
    var line := "import " + Quoted(p);
    QuotedPartOfQuoted("import ", p, 0);
    assert line == "import " + Quoted(p);
    assert QuotedPart(line, 0) == Ok(Some(p));
    NoParen(line, '(');
    assert !Contains(line, "(");
  }

  /** A quoted line without `)` inside a block contributes its path and the
      scan goes on with the next line. */
  lemma ScanItemLine(lines: seq<string>, start: nat, item: string)
    requires start < |lines| && QuotedPart(lines[start], start) == Ok(Some(item))
    requires !Contains(lines[start], ")")
    ensures ImportScan(lines, start + 1, true).Ok? ==>
      ImportScan(lines, start, true) == Ok([item] + ImportScan(lines, start + 1, true).value)
  {
  }

  /** A path line inside a block contributes its path and the scan goes on. */
  lemma ScanPathLine(lines: seq<string>, start: nat, p: string)
    requires start < |lines| && lines[start] == Quoted(p) && IsPath(p)
    ensures ImportScan(lines, start + 1, true).Ok? ==>
      ImportScan(lines, start, true) == Ok([p] + ImportScan(lines, start + 1, true).value)
  {
    assert ')' !in Quoted(p);
    QuotedPartOfQuoted("", p, start);
    assert "" + Quoted(p) == Quoted(p);
    NoParen(Quoted(p), ')');
    ScanItemLine(lines, start, p);
  }

  /** The closing line of a block ends the scan. */
  lemma ScanCloseLine(lines: seq<string>, start: nat)
    requires start < |lines| && lines[start] == ")"
    ensures ImportScan(lines, start, true) == Ok([])
  {
    assert QuotedPart(")", start) == Ok(None);
    ContainsChar(")", ')');
  }

  /** Inside a block, the quoted path lines up to the closing `)` line yield
      their paths in order. */
  lemma BlockLines(lines: seq<string>, start: nat, ps: seq<string>)
    requires start + |ps| < |lines|
    requires forall k :: 0 <= k < |ps| ==> IsPath(ps[k]) && lines[start + k] == Quoted(ps[k])
    requires lines[start + |ps|] == ")"
    ensures ImportScan(lines, start, true) == Ok(ps)
  {
    BlockLinesFrom(lines, start, ps, 0);
    assert ps[0..] == ps;
  }

  /** BlockLines from the path at position `k` of the block on. */
  lemma {:induction false} BlockLinesFrom(lines: seq<string>, start: nat, ps: seq<string>, k: nat)
    requires k <= |ps| && start + |ps| < |lines|
    requires forall k :: 0 <= k < |ps| ==> IsPath(ps[k]) && lines[start + k] == Quoted(ps[k])
    requires lines[start + |ps|] == ")"
    ensures ImportScan(lines, start + k, true) == Ok(ps[k..])
    decreases |ps| - k
  {
    if k == |ps| {
      ScanCloseLine(lines, start + k);
      assert ps[k..] == [];
    } else {
      BlockLinesFrom(lines, start, ps, k + 1);
      BlockLineStep(lines, start + k, ps, k);
    }
  }

  /** One path line in front of a block tail whose scan is known. */
  lemma BlockLineStep(lines: seq<string>, at: nat, ps: seq<string>, k: nat)
    requires k < |ps| && at < |lines|
    requires IsPath(ps[k]) && lines[at] == Quoted(ps[k])
    requires ImportScan(lines, at + 1, true) == Ok(ps[k + 1..])
    ensures ImportScan(lines, at, true) == Ok(ps[k..])
  {
    ScanPathLine(lines, at, ps[k]);
    assert ps[k..] == [ps[k]] + ps[k + 1..];
  }

  /** The block form `import (` with one quoted path per line and a closing
      `)` yields every path, in order. */
  lemma ImportBlock(lines: seq<string>, at: nat, ps: seq<string>)
    requires at + |ps| + 1 < |lines|
    requires lines[at] == "import ("
    requires forall k :: 0 <= k < |ps| ==> IsPath(ps[k]) && lines[at + 1 + k] == Quoted(ps[k])
    requires lines[at + 1 + |ps|] == ")"
    ensures ImportScan(lines, at, false) == Ok(ps)
  {
    BlockLines(lines, at + 1, ps);
    ScanOpenLine(lines, at);
  }

  /** The line `import (` opens a block and the scan goes on with the next
      line. */
  lemma ScanOpenLine(lines: seq<string>, at: nat)
    requires at < |lines| && lines[at] == "import ("
    ensures ImportScan(lines, at, false) == ImportScan(lines, at + 1, true)
  {
    assert QuotedPart("import (", at) == Ok(None);
    ContainsChar("import (", '(');
    assert "import ("[7] == '(';
    NoParen("import (", ')');
  }

  /** Lines without `import` add no paths. */
  lemma {:induction false} ImportsFromSkip(lines: seq<string>, i: nat, j: nat)
    requires i <= j <= |lines|
    requires forall k :: i <= k < j ==> !Contains(lines[k], ImportKeyword)
    ensures ImportsFrom(lines, i) == ImportsFrom(lines, j)
    decreases j - i
  {
    if i < j {
      ImportsFromStep(lines, i);
      ImportsFromSkip(lines, i + 1, j);
    }
  }

  /** A file without any `import` line has no imports. */
  lemma GetImportsWithoutImport(lines: seq<string>)
    requires forall k :: 0 <= k < |lines| ==> !Contains(lines[k], ImportKeyword)
    ensures GetImports(lines) == Ok([])
  {
    ImportsFromSkip(lines, 0, |lines|);
  }

  lemma ImportsFromStep(lines: seq<string>, i: nat)
    requires i < |lines| && !Contains(lines[i], ImportKeyword)
    ensures ImportsFrom(lines, i) == ImportsFrom(lines, i + 1)
  {
  }

  /** From line `i` on: the imports fail exactly when the scan of some
      import line fails, with the first such line's error, and otherwise
      hold exactly the paths the import lines' scans yield. */
  lemma ImportsFromSpec(lines: seq<string>, i: nat)
    requires i <= |lines|
    ensures ImportsFrom(lines, i).Fail? <==>
      exists j :: i <= j && ImportLine(lines, j) && ImportScan(lines, j, false).Fail?
    ensures ImportsFrom(lines, i).Fail? ==>
      exists j :: FirstFailingImport(lines, i, j) && ImportsFrom(lines, i).error == ImportScan(lines, j, false).error
    ensures ImportsFrom(lines, i).Ok? ==> forall p :: p in ImportsFrom(lines, i).value <==>
      exists j :: i <= j && ImportLine(lines, j) && ImportScan(lines, j, false).Ok? && p in ImportScan(lines, j, false).value
  {
    var os := Outcomes(lines);
    ImportsFromCollect(lines, i);
    CollectFailure(os, i);
    CollectPaths(os, i);
    forall j | 0 <= j < |lines| ensures FirstFail(os, i, j) <==> FirstFailingImport(lines, i, j) {
      OutcomesBefore(lines, i, j);
    }
    if ImportsFrom(lines, i).Fail? {
      var j :| i <= j < |os| && os[j].Some? && os[j].value.Fail?;
      assert ImportLine(lines, j);
    } else {
      var r := ImportsFrom(lines, i);
      forall p | p in r.value
        ensures exists j :: i <= j && ImportLine(lines, j) && ImportScan(lines, j, false).Ok? && p in ImportScan(lines, j, false).value
      {
        var j :| i <= j < |os| && os[j].Some? && os[j].value.Ok? && p in os[j].value.value;
        assert ImportLine(lines, j);
      }
      forall j, p | i <= j && ImportLine(lines, j) && ImportScan(lines, j, false).Ok? && p in ImportScan(lines, j, false).value
        ensures p in r.value
      {
        assert os[j] == Some(ImportScan(lines, j, false));
      }
    }
  }

  /** The lines from `i` up to `j` whose scans are accepted are the import
      lines whose scans are accepted. */
  lemma OutcomesBefore(lines: seq<string>, i: nat, j: int)
    requires 0 <= j < |lines|
    ensures (forall k :: i <= k < j && Outcomes(lines)[k].Some? ==> Outcomes(lines)[k].value.Ok?) <==>
      (forall k :: i <= k < j && ImportLine(lines, k) ==> ImportScan(lines, k, false).Ok?)
  {
    var os := Outcomes(lines);
    assert forall k :: i <= k < j ==> (os[k].Some? <==> ImportLine(lines, k));
    assert forall k :: i <= k < j && os[k].Some? ==> os[k].value == ImportScan(lines, k, false);
  }

  /** What line `j` contributes to the imports: nothing when it has no
      `import`, its scan otherwise. */
  ghost function Outcomes(lines: seq<string>): (os: seq<Option<Result<seq<string>>>>)
    ensures |os| == |lines|
    ensures forall j :: 0 <= j < |lines| ==>
      os[j] == if Contains(lines[j], ImportKeyword) then Some(ImportScan(lines, j, false)) else None
  {
    seq(|lines|, j requires 0 <= j < |lines| =>
      if Contains(lines[j], ImportKeyword) then Some(ImportScan(lines, j, false)) else None)
  }

  /** ImportsFrom with the scans given: the first failure stops the fold,
      and accepted scans are concatenated in order. */
  ghost function Collect<T>(os: seq<Option<Result<seq<T>>>>, i: nat): Result<seq<T>>
    requires i <= |os|
    decreases |os| - i
  {
    if i == |os| then Ok([])
    else match os[i]
      case None => Collect(os, i + 1)
      case Some(here) =>
        if here.Fail? then Fail(here.error)
        else
          var tail := Collect(os, i + 1);
          if tail.Fail? then Fail(tail.error) else Ok(here.value + tail.value)
  }

  /** Entry `j` is the first failing outcome from `i` on. */
  ghost predicate FirstFail<T>(os: seq<Option<Result<T>>>, i: nat, j: int) {
    && i <= j < |os|
    && os[j].Some? && os[j].value.Fail?
    && forall k :: i <= k < j && os[k].Some? ==> os[k].value.Ok?
  }

  lemma {:induction false} ImportsFromCollect(lines: seq<string>, i: nat)
    requires i <= |lines|
    ensures ImportsFrom(lines, i) == Collect(Outcomes(lines), i)
    decreases |lines| - i
  {
    if i < |lines| {
      ImportsFromCollect(lines, i + 1);
    }
  }

  /** The fold fails exactly when some outcome fails, with the first
      failure's error. */
  lemma {:induction false} CollectFailure<T>(os: seq<Option<Result<seq<T>>>>, i: nat)
    requires i <= |os|
    ensures Collect(os, i).Fail? <==> exists j :: i <= j < |os| && os[j].Some? && os[j].value.Fail?
    ensures Collect(os, i).Fail? ==> exists j :: FirstFail(os, i, j) && Collect(os, i).error == os[j].value.error
    decreases |os| - i
  {
    if i < |os| {
      CollectFailure(os, i + 1);
      if os[i].Some? && os[i].value.Fail? {
        assert FirstFail(os, i, i);
      } else if Collect(os, i).Fail? {
        var j :| FirstFail(os, i + 1, j) && Collect(os, i + 1).error == os[j].value.error;
        assert FirstFail(os, i, j);
      }
    }
  }

  /** An accepted fold holds exactly the values of the accepted outcomes. */
  lemma {:induction false} CollectPaths<T>(os: seq<Option<Result<seq<T>>>>, i: nat)
    requires i <= |os|
    ensures Collect(os, i).Ok? ==> forall p :: p in Collect(os, i).value <==>
      exists j :: i <= j < |os| && os[j].Some? && os[j].value.Ok? && p in os[j].value.value
    decreases |os| - i
  {
    if i < |os| {
      CollectPaths(os, i + 1);
      if os[i].Some? && Collect(os, i).Ok? {
        forall p | p in os[i].value.value
          ensures exists j :: i <= j < |os| && os[j].Some? && os[j].value.Ok? && p in os[j].value.value
        {
          assert i <= i < |os|;
        }
      }
    }
  }

  /** The paths of a file whose only `import` line opens a block are the
      paths of that block, in order. */
  lemma GetImportsOfBlock(lines: seq<string>, at: nat, ps: seq<string>)
    requires at + |ps| + 1 < |lines|
    requires lines[at] == "import ("
    requires forall k :: 0 <= k < |ps| ==> IsPath(ps[k]) && lines[at + 1 + k] == Quoted(ps[k])
    requires lines[at + 1 + |ps|] == ")"
    requires forall k :: 0 <= k < |lines| && k != at ==> !Contains(lines[k], ImportKeyword)
    ensures GetImports(lines) == Ok(ps)
  {
    ImportsFromSkip(lines, 0, at);
    ImportBlock(lines, at, ps);
    ImportsFromSkip(lines, at + 1, |lines|);
    assert OccursAt("import (", ImportKeyword, 0);
    assert ps + [] == ps;
  }

  /** The paths of a file whose only `import` line imports one path are
      that path. */
  lemma GetImportsOfLine(lines: seq<string>, at: nat, p: string)
    requires at < |lines| && lines[at] == "import " + Quoted(p) && IsPath(p)
    requires forall k :: 0 <= k < |lines| && k != at ==> !Contains(lines[k], ImportKeyword)
    ensures GetImports(lines) == Ok([p])
  {
    var line := lines[at];
    QuotedPartOfQuoted("import ", p, at);
    NoParen(line, '(');
    assert ImportScan(lines, at, false) == Ok([p]);
    ImportsFromSkip(lines, 0, at);
    ImportsFromSkip(lines, at + 1, |lines|);
    assert OccursAt(line, ImportKeyword, 0);
    assert [p] + [] == [p];
  }

  // ---------------------------------------------------------------------
  // A reference reading of one import declaration

  /** The path one line contributes: the text between its first and its
      last double quote, when it has two. */
  ghost function LinePath(line: string): seq<string> {
    match QuotedPart(line, 0)
    case Ok(Some(p)) => [p]
    case _ => []
  }

  /** The paths of lines `lo` to `e`, line by line. */
  ghost function PathsFrom(lines: seq<string>, lo: nat, e: int): seq<string>
    requires e < |lines|
    decreases e + 1 - lo
  {
    if e < lo then [] else LinePath(lines[lo]) + PathsFrom(lines, lo + 1, e)
  }

  /** A parenthesis was open before the scan began at `index`, or some line
      from `index` to `j` opens one. */
  ghost predicate OpenBy(lines: seq<string>, index: nat, open: bool, j: int) {
    open || exists i :: index <= i <= j && i < |lines| && Contains(lines[i], "(")
  }

  /** Line `j` ends the declaration begun at `index`: it closes the
      parenthesis, or it carries a quote while no parenthesis is open. */
  ghost predicate EndsAt(lines: seq<string>, index: nat, open: bool, j: int) {
    && index <= j < |lines|
    && (Contains(lines[j], ")") || (Quote in lines[j] && !OpenBy(lines, index, open, j)))
  }

  /** Line `e` is the first line from `index` on that ends the declaration. */
  ghost predicate FirstEnd(lines: seq<string>, index: nat, open: bool, e: int) {
    EndsAt(lines, index, open, e) && forall j :: index <= j < e ==> !EndsAt(lines, index, open, j)
  }

  /** No line from `index` to `e` has exactly one double quote. */
  ghost predicate NoSingleQuoteUpTo(lines: seq<string>, index: nat, e: int) {
    forall i :: index <= i <= e && i < |lines| ==> !SingleQuoted(lines[i])
  }

  /** The import scan from `index` succeeds exactly when some line ends the
      declaration and no line up to the first such line has a lone quote;
      it then yields the paths of the lines from `index` to that line. */
  lemma {:induction false} ImportScanSpec(lines: seq<string>, index: nat, open: bool)
    ensures ImportScan(lines, index, open).Ok? <==>
      exists e :: FirstEnd(lines, index, open, e) && NoSingleQuoteUpTo(lines, index, e)
    ensures forall e :: FirstEnd(lines, index, open, e) && ImportScan(lines, index, open).Ok? ==>
      ImportScan(lines, index, open).value == PathsFrom(lines, index, e)
    decreases |lines| - index
  {
    if index < |lines| {
      var line := lines[index];
      var open' := open || Contains(line, "(");
      OpenHere(lines, index, open);
      if SingleQuoted(line) {
        assert ImportScan(lines, index, open).Fail?;
      } else if EndsAt(lines, index, open, index) {
        EndsHere(lines, index, open);
      } else {
        ImportScanSpec(lines, index + 1, open');
        ShiftEnds(lines, index, open);
        ContinueScan(lines, index, open);
        if ImportScan(lines, index + 1, open').Ok? {
          var e :| FirstEnd(lines, index + 1, open', e) && NoSingleQuoteUpTo(lines, index + 1, e);
          assert FirstEnd(lines, index, open, e) && NoSingleQuoteUpTo(lines, index, e);
        }
      }
    }
  }

  /** At the first line, the parenthesis is open exactly when it was open
      before or that line opens it. */
  lemma OpenHere(lines: seq<string>, index: nat, open: bool)
    requires index < |lines|
    ensures OpenBy(lines, index, open, index) <==> open || Contains(lines[index], "(")
  {
  }

  /** Beyond the first line, the declaration ends where the scan from the
      next line, with the parenthesis state after the first line, ends. */
  lemma ShiftEnds(lines: seq<string>, index: nat, open: bool)
    requires index < |lines|
    ensures forall j :: index < j ==>
      (EndsAt(lines, index, open, j) <==> EndsAt(lines, index + 1, open || Contains(lines[index], "("), j))
  {
    forall j | index < j
      ensures OpenBy(lines, index, open, j) <==> OpenBy(lines, index + 1, open || Contains(lines[index], "("), j)
    {
      if OpenBy(lines, index, open, j) && !open && !Contains(lines[index], "(") {
        var i :| index <= i <= j && i < |lines| && Contains(lines[i], "(");
        assert i != index;
      }
    }
  }

  /** A first line that ends the declaration is the whole declaration. */
  lemma EndsHere(lines: seq<string>, index: nat, open: bool)
    requires index < |lines| && !SingleQuoted(lines[index])
    requires EndsAt(lines, index, open, index)
    ensures FirstEnd(lines, index, open, index) && NoSingleQuoteUpTo(lines, index, index)
    ensures ImportScan(lines, index, open) == Ok(PathsFrom(lines, index, index))
  {
    var line := lines[index];
    OpenHere(lines, index, open);
    QuotedPartAt(line, index);
    assert PathsFrom(lines, index + 1, index) == [];
    assert PathsFrom(lines, index, index) == LinePath(line);
    if Quote in line {
      var item := QuotedPart(line, index).value.value;
      assert LinePath(line) == [item];
      assert ImportScan(lines, index, open) == Ok([item]);
    } else {
      assert ImportScan(lines, index, open) == Ok([]);
    }
  }

  /** The line number a quoted part is read at only names its error. */
  lemma QuotedPartAt(line: string, at: nat)
    requires !SingleQuoted(line)
    ensures QuotedPart(line, at) == QuotedPart(line, 0)
    ensures Quote in line ==> QuotedPart(line, at).Ok? && QuotedPart(line, at).value.Some?
    ensures Quote !in line ==> QuotedPart(line, at) == Ok(None)
  {
    IndexOfCharSpec(line, Quote);
  }

  /** A first line that does not end the declaration contributes its path
      and hands the rest to the scan of the next line. */
  lemma ContinueScan(lines: seq<string>, index: nat, open: bool)
    requires index < |lines| && !SingleQuoted(lines[index])
    requires !EndsAt(lines, index, open, index)
    requires forall j :: index < j ==>
      (EndsAt(lines, index, open, j) <==> EndsAt(lines, index + 1, open || Contains(lines[index], "("), j))
    ensures var next := ImportScan(lines, index + 1, open || Contains(lines[index], "("));
      && (ImportScan(lines, index, open).Ok? <==> next.Ok?)
      && (next.Ok? ==> ImportScan(lines, index, open).value == LinePath(lines[index]) + next.value)
    ensures forall e :: FirstEnd(lines, index, open, e) <==>
      index < e && FirstEnd(lines, index + 1, open || Contains(lines[index], "("), e)
    ensures forall e :: NoSingleQuoteUpTo(lines, index, e) <==> NoSingleQuoteUpTo(lines, index + 1, e)
  {
    var line := lines[index];
    var open' := open || Contains(line, "(");
    var next := index + 1;
    OpenHere(lines, index, open);
    QuotedPartAt(line, index);
    forall e | FirstEnd(lines, index, open, e) ensures index < e && FirstEnd(lines, next, open', e) {
      forall j | next <= j < e ensures !EndsAt(lines, next, open', j) {
        assert !EndsAt(lines, index, open, j);
      }
    }
    forall e | index < e && FirstEnd(lines, next, open', e) ensures FirstEnd(lines, index, open, e) {
      forall j | index <= j < e ensures !EndsAt(lines, index, open, j) {
        if j > index {
          assert !EndsAt(lines, next, open', j);
        }
      }
    }
  }
}
