/**
 Annotation scanning shared by the generator and the type scanner: line
 normalisation, `//@Configuration` marker positions, the type name and alias
 of a marked declaration, and the declaration block cut out by counting
 braces. The two packages carry identical copies of these helpers; they are
 modelled once here.
 */
module Scanner {
  import opened Results
  import opened Text
  import opened Assoc

  // ---------------------------------------------------------------------
  // Line normalisation

  /** A line as the scanners see it: non-empty and already trimmed. */
  predicate IsNormalLine(l: string) {
    l != "" && Trim(l) == l
  }

  /** Trim every line and drop the ones that become empty. */
  function TrimAndDropEmpty(raw: seq<string>): (r: seq<string>)
    ensures |r| <= |raw|
    ensures forall i :: 0 <= i < |r| ==> IsNormalLine(r[i])
    decreases |raw|
  {
    if |raw| == 0 then []
    else
      var t := Trim(raw[0]);
      TrimFixed(t);
      var rest := TrimAndDropEmpty(raw[1..]);
      if t == "" then rest else [t] + rest
  }

  /** Each raw line trimmed, or nothing where the trimmed line is empty. */
  function TrimmedEntries(raw: seq<string>): (es: seq<Option<string>>)
    ensures |es| == |raw|
    ensures forall i :: 0 <= i < |raw| ==> es[i] == Entry(raw[i])
  {
    seq(|raw|, i requires 0 <= i < |raw| => Entry(raw[i]))
  }

  /** One raw line trimmed, or nothing when it trims to the empty string. */
  function Entry(line: string): (e: Option<string>)
    ensures e.Some? <==> Trim(line) != ""
    ensures e.Some? ==> e.value == Trim(line)
  {
    if Trim(line) == "" then None else Some(Trim(line))
  }

  /** The normalised lines are the non-empty trimmed lines, in their
      original order: each one is some raw line trimmed, and every raw line
      that does not trim to nothing is kept. */
  lemma TrimAndDropSpec(raw: seq<string>)
    ensures TrimAndDropEmpty(raw) == Values(TrimmedEntries(raw))
    ensures forall l :: l in TrimAndDropEmpty(raw) <==>
      exists i :: 0 <= i < |raw| && l == Trim(raw[i]) && l != ""
  {
    TrimAndDropValues(raw);
    TrimmedMembers(raw);
  }

  lemma TrimmedMembers(raw: seq<string>)
    ensures forall l :: l in Values(TrimmedEntries(raw)) <==>
      exists i :: 0 <= i < |raw| && l == Trim(raw[i]) && l != ""
  {
    var es := TrimmedEntries(raw);
    forall l | (exists i :: 0 <= i < |raw| && l == Trim(raw[i]) && l != "")
      ensures l in Values(es)
    {
      var i :| 0 <= i < |raw| && l == Trim(raw[i]) && l != "";
      assert es[i] == Entry(raw[i]) == Some(l);
    }
    forall l | l in Values(es)
      ensures exists i :: 0 <= i < |raw| && l == Trim(raw[i]) && l != ""
    {
      var i :| 0 <= i < |es| && es[i] == Some(l);
      assert Entry(raw[i]) == Some(l);
    }
  }

  lemma {:induction false} TrimAndDropValues(raw: seq<string>)
    ensures TrimAndDropEmpty(raw) == Values(TrimmedEntries(raw))
    decreases |raw|
  {
    if |raw| > 0 {
      TrimAndDropValues(raw[1..]);
      TrimAndDropStep(raw);
      TrimmedEntriesStep(raw);
      ValuesStep(TrimmedEntries(raw));
    }
  }

  lemma TrimAndDropStep(raw: seq<string>)
    requires |raw| > 0
    ensures TrimAndDropEmpty(raw) ==
      (if Trim(raw[0]) == "" then [] else [Trim(raw[0])]) + TrimAndDropEmpty(raw[1..])
  {
  }

  lemma TrimmedEntriesStep(raw: seq<string>)
    requires |raw| > 0
    ensures TrimmedEntries(raw)[0] == Entry(raw[0])
    ensures TrimmedEntries(raw)[1..] == TrimmedEntries(raw[1..])
  {
    var a, b := TrimmedEntries(raw)[1..], TrimmedEntries(raw[1..]);
    forall i | 0 <= i < |a| ensures a[i] == b[i] {
      assert raw[1..][i] == raw[i + 1];
    }
  }

  /** Trimming and dropping adds no character the raw lines lack. */
  lemma {:induction false} TrimAndDropNoChar(raw: seq<string>, c: char)
    requires forall i :: 0 <= i < |raw| ==> c !in raw[i]
    ensures forall i :: 0 <= i < |TrimAndDropEmpty(raw)| ==> c !in TrimAndDropEmpty(raw)[i]
    decreases |raw|
  {
    if |raw| > 0 {
      TrimSpec(raw[0]);
      assert forall i :: 1 <= i < |raw| ==> raw[i] == raw[1..][i - 1];
      TrimAndDropNoChar(raw[1..], c);
    }
  }

  /** getFileContentAsStringLines without the file read: split the text at
      newlines, trim each line and keep the non-empty ones. */
  function NormalizeLines(text: string): (r: seq<string>)
    ensures forall i :: 0 <= i < |r| ==> IsNormalLine(r[i]) && '\n' !in r[i]
  {
    TrimAndDropNoChar(Split(text, '\n'), '\n');
    TrimAndDropEmpty(Split(text, '\n'))
  }

  /** The normalised lines of a text are its non-empty trimmed lines, in
      order. */
  lemma NormalizeLinesSpec(text: string)
    ensures NormalizeLines(text) == Values(TrimmedEntries(Split(text, '\n')))
    ensures forall l :: l in NormalizeLines(text) <==>
      exists i :: 0 <= i < |Split(text, '\n')| && l == Trim(Split(text, '\n')[i]) && l != ""
  {
    TrimAndDropSpec(Split(text, '\n'));
  }

  lemma {:induction false} TrimAndDropNormal(ls: seq<string>)
    requires forall i :: 0 <= i < |ls| ==> IsNormalLine(ls[i])
    ensures TrimAndDropEmpty(ls) == ls
    decreases |ls|
  {
    if |ls| > 0 {
      assert forall i :: 0 <= i < |ls| - 1 ==> ls[1..][i] == ls[i + 1];
      TrimAndDropNormal(ls[1..]);
      TrimAndDropKeeps(ls);
      FrontThenRest(ls, TrimAndDropEmpty(ls), TrimAndDropEmpty(ls[1..]), []);
    }
  }

  /** A normal first line is kept as it stands. */
  lemma TrimAndDropKeeps(ls: seq<string>)
    requires |ls| > 0 && IsNormalLine(ls[0])
    ensures TrimAndDropEmpty(ls) == [ls[0]] + TrimAndDropEmpty(ls[1..])
  {
  }

  /** Normalising is idempotent: writing the lines back out, one per line,
      and normalising again gives the same lines. */
  lemma NormalizeIdempotent(text: string)
    ensures NormalizeLines(Join(NormalizeLines(text), "\n")) == NormalizeLines(text)
  {
    var ls := NormalizeLines(text);
    if |ls| == 0 {
      assert Split("", '\n') == [""];
    } else {
      SplitJoin(ls, '\n');
      TrimAndDropNormal(ls);
    }
  }

  // ---------------------------------------------------------------------
  // Marker positions

  const ConfigurationMarker := "//@Configuration"

  /** IsCodeAnnotation: whether the trimmed text starts with `//`. The source
      slices the first two characters, so a trimmed text shorter than two
      characters is an error. */
  function IsCodeAnnotation(s: string, at: nat): (r: Result<bool>)
    ensures r.Fail? <==> |Trim(s)| < 2
    ensures r.Ok? ==> (r.value <==> HasPrefix(Trim(s), "//"))
  {
    var t := Trim(s);
    if |t| < 2 then Fail(ShortAnnotationCheck(at)) else Ok(t[..2] == "//")
  }

  /** How findConfigurationsPosition treats a line. */
  datatype LineKind =
    | Plain               // no marker
    | MarkerUnreadable    // marker, but the next line is missing or too short to test
    | MarkerBeforeComment // marker followed by a comment line
    | MarkerBeforeCode    // marker followed by a non-comment line: a recorded position

  function KindOf(lines: seq<string>, i: nat): LineKind
    requires i < |lines|
  {
    if !Contains(lines[i], ConfigurationMarker) then Plain
    else if i + 1 == |lines| then MarkerUnreadable
    else match IsCodeAnnotation(lines[i + 1], i + 1)
      case Fail(_) => MarkerUnreadable
      case Ok(comment) => if comment then MarkerBeforeComment else MarkerBeforeCode
  }

  /** Line `i` carries the configuration marker and the line after it is
      not a comment. */
  ghost predicate ConfigurationAt(lines: seq<string>, i: int) {
    0 <= i < |lines| && KindOf(lines, i) == MarkerBeforeCode
  }

  /** Line `i` carries the marker but the line after it cannot be checked:
      it does not exist, or it is too short to slice. */
  ghost predicate BadMarkerAt(lines: seq<string>, i: int) {
    0 <= i < |lines| && KindOf(lines, i) == MarkerUnreadable
  }

  /** The classification in the source's own terms. */
  lemma KindOfMeaning(lines: seq<string>, i: nat)
    requires i < |lines|
    ensures ConfigurationAt(lines, i) <==>
      && i + 1 < |lines|
      && Contains(lines[i], ConfigurationMarker)
      && |Trim(lines[i + 1])| >= 2
      && !HasPrefix(Trim(lines[i + 1]), "//")
    ensures BadMarkerAt(lines, i) <==>
      Contains(lines[i], ConfigurationMarker) && (i + 1 == |lines| || |Trim(lines[i + 1])| < 2)
  {
  }

  /** The kind of every line. */
  function Kinds(lines: seq<string>): (r: seq<LineKind>)
    ensures |r| == |lines|
    ensures forall i :: 0 <= i < |lines| ==> r[i] == KindOf(lines, i)
  {
    seq(|lines|, i requires 0 <= i < |lines| => KindOf(lines, i))
  }

  /** The error findConfigurationsPosition reports for an unreadable marker
      on line `i` of `n` lines. */
  function UnreadableError(i: nat, n: nat): Error {
    if i + 1 == n then MarkerOnLastLine(i) else ShortAnnotationCheck(i + 1)
  }

  /** findConfigurationsPosition from line `from` on, over the line kinds:
      the first unreadable marker is an error, otherwise the positions of
      the markers followed by code, ascending. */
  function PositionsFrom(kinds: seq<LineKind>, from: nat): (r: Result<seq<nat>>)
    requires from <= |kinds|
    ensures r.Fail? ==> exists i ::
      && from <= i < |kinds|
      && kinds[i] == MarkerUnreadable
      && r.error == UnreadableError(i, |kinds|)
    ensures r.Ok? ==> forall i :: from <= i < |kinds| ==> kinds[i] != MarkerUnreadable
    ensures r.Ok? ==> forall k :: 0 <= k < |r.value| ==>
      from <= r.value[k] < |kinds| && kinds[r.value[k]] == MarkerBeforeCode
    ensures r.Ok? ==> forall k, l :: 0 <= k < l < |r.value| ==> r.value[k] < r.value[l]
    ensures r.Ok? ==> forall i :: from <= i < |kinds| && kinds[i] == MarkerBeforeCode ==> i in r.value
    decreases |kinds| - from
  {
    if from == |kinds| then Ok([])
    else
      match kinds[from]
      case MarkerUnreadable => Fail(UnreadableError(from, |kinds|))
      case Plain => PositionsFrom(kinds, from + 1)
      case MarkerBeforeComment => PositionsFrom(kinds, from + 1)
      case MarkerBeforeCode =>
        var rest :- PositionsFrom(kinds, from + 1);
        Ok([from] + rest)
  }

  /** findConfigurationsPosition: the ascending positions of every marker
      whose next line is not a comment. Fails when a marker sits on the last
      line or is followed by a line too short to test. */
  function FindConfigurationsPosition(lines: seq<string>): (r: Result<seq<nat>>)
    ensures r.Fail? ==> exists i :: BadMarkerAt(lines, i) && r.error == UnreadableError(i, |lines|)
    ensures r.Ok? ==> forall i :: 0 <= i < |lines| ==> !BadMarkerAt(lines, i)
    ensures r.Ok? ==> forall k, l :: 0 <= k < l < |r.value| ==> r.value[k] < r.value[l]
    ensures r.Ok? ==> forall i :: i in r.value <==> ConfigurationAt(lines, i)
  {
    var kinds := Kinds(lines);
    var r := PositionsFrom(kinds, 0);
    if r.Ok? then
      assert forall i :: i in r.value ==> ConfigurationAt(lines, i) by {
        forall i | i in r.value ensures ConfigurationAt(lines, i) {
          var k :| 0 <= k < |r.value| && r.value[k] == i;
        }
      }
      r
    else r
  }

  // ---------------------------------------------------------------------
  // Type name and alias

  const TypeKeyword := "type "
  const StructKeyword := "struct "

  /** `type ` occurs, `struct ` occurs, and the first `type ` comes first. */
  predicate IsStructLine(line: string) {
    var t := IndexOf(line, TypeKeyword);
    var s := IndexOf(line, StructKeyword);
    t != -1 && s != -1 && t < s
  }

  /** The two keywords cannot overlap: `struct ` cannot start inside `type `. */
  lemma KeywordsApart(line: string)
    requires IsStructLine(line)
    ensures IndexOf(line, TypeKeyword) + |TypeKeyword| <= IndexOf(line, StructKeyword)
  {
    var t := IndexOf(line, TypeKeyword);
    var s := IndexOf(line, StructKeyword);
    forall j | t <= j < t + 5 ensures !OccursAt(line, StructKeyword, j) {
      assert line[j] == line[t..t + 5][j - t] == TypeKeyword[j - t];
      if j + 7 <= |line| {
        assert line[j..j + 7][0] == line[j];
      }
    }
    assert OccursAt(line, StructKeyword, s);
  }

  /** GetTypeName: the trimmed text between the first `type ` and the first
      `struct `, or empty when the line is not a struct declaration. */
  function GetTypeName(line: string): (r: string)
    ensures !IsStructLine(line) ==> r == ""
    ensures |r| > 0 ==> !IsSpace(r[0]) && !IsSpace(r[|r| - 1])
  {
    if IsStructLine(line) then
      KeywordsApart(line);
      var t := IndexOf(line, TypeKeyword);
      var s := IndexOf(line, StructKeyword);
      Trim(line[t + |TypeKeyword|..s])
    else ""
  }

  /** The name read from a line is the trimmed text between its first
      `type ` and the `struct ` after it, when neither keyword occurs
      earlier on the line. */
  lemma TypeNameBetween(pre: string, mid: string, post: string)
    requires !Contains(pre + "type", TypeKeyword)
    requires !Contains(pre + TypeKeyword + mid + "struct", StructKeyword)
    ensures GetTypeName(pre + TypeKeyword + mid + StructKeyword + post) == Trim(mid)
  {
    var line := pre + TypeKeyword + mid + StructKeyword + post;
    KeywordPositions(pre, mid, post);
    MiddleOf(pre, TypeKeyword, mid, StructKeyword, post);
    TypeNameAt(line, |pre|, |pre| + |TypeKeyword| + |mid|);
  }

  /** Where the two keywords are first found on such a line. */
  lemma KeywordPositions(pre: string, mid: string, post: string)
    requires !Contains(pre + "type", TypeKeyword)
    requires !Contains(pre + TypeKeyword + mid + "struct", StructKeyword)
    ensures IndexOf(pre + TypeKeyword + mid + StructKeyword + post, TypeKeyword) == |pre|
    ensures IndexOf(pre + TypeKeyword + mid + StructKeyword + post, StructKeyword) == |pre| + |TypeKeyword| + |mid|
  {
    var line := pre + TypeKeyword + mid + StructKeyword + post;
    assert TypeKeyword[..4] == "type" && StructKeyword[..6] == "struct";
    FirstAt(line, pre, TypeKeyword);
    FirstAt(line, pre + TypeKeyword + mid, StructKeyword);
  }

  /** The name read from a line whose keywords are first found at `t` and
      `s`. */
  lemma TypeNameAt(line: string, t: int, s: int)
    requires IndexOf(line, TypeKeyword) == t && IndexOf(line, StructKeyword) == s
    requires 0 <= t && t + |TypeKeyword| <= s
    ensures GetTypeName(line) == Trim(line[t + |TypeKeyword|..s])
  {
    assert IsStructLine(line);
  }

  /** The third of five pieces is found where the first two end. */
  lemma MiddleOf(p: string, a: string, m: string, b: string, q: string)
    ensures (p + a + m + b + q)[|p| + |a|..|p| + |a| + |m|] == m
  {
    var s := p + a + m + b + q;
    var lo := |p| + |a|;
    forall i | 0 <= i < |m| ensures s[lo..lo + |m|][i] == m[i] {
      assert s[lo + i] == (p + a + m)[lo + i];
    }
  }

  predicate IsIdentChar(c: char) {
    ('a' <= c <= 'z') || ('A' <= c <= 'Z') || ('0' <= c <= '9') || c == '_'
  }

  /** A Go identifier made of ASCII letters, digits and underscores. */
  predicate IsIdentifier(n: string) {
    |n| > 0 && forall i :: 0 <= i < |n| ==> IsIdentChar(n[i])
  }

  /** Whether `n` ends in the letters `struct`. */
  predicate EndsWithStruct(n: string) {
    |n| >= 6 && n[|n| - 6..] == "struct"
  }

  /** The name of an ordinary declaration `type N struct ...` is `N`, as long
      as `N` does not itself end in `struct` (then the first `struct ` found
      is inside the name). */
  lemma DeclarationName(n: string, rest: string)
    requires IsIdentifier(n) && !EndsWithStruct(n)
    ensures GetTypeName(TypeKeyword + n + " " + StructKeyword + rest) == n
  {
    NoStructBeforeName(n, rest);
    ConcatAssoc(TypeKeyword, n, " ");
    TypeNameAtStart(n + " ", rest);
    TrimOneSpace(n);
  }

  /** A line that starts with `type `: the name is the trimmed text up to
      the first `struct `. */
  lemma TypeNameAtStart(mid: string, post: string)
    requires !Contains(TypeKeyword + mid + "struct", StructKeyword)
    ensures GetTypeName(TypeKeyword + mid + StructKeyword + post) == Trim(mid)
  {
    NoTypeInShort();
    assert "" + "type" == "type";
    assert "" + TypeKeyword == TypeKeyword;
    TypeNameBetween("", mid, post);
  }

  /** `struct ` does not occur in `type <n> struct`. */
  lemma NoStructBeforeName(n: string, rest: string)
    requires IsIdentifier(n) && !EndsWithStruct(n)
    ensures !Contains(TypeKeyword + n + " " + "struct", StructKeyword)
  {
    var front := TypeKeyword + n + " " + "struct";
    assert front + (" " + rest) == TypeKeyword + n + " " + StructKeyword + rest;
    forall j | 0 <= j && j + |StructKeyword| <= |front| ensures !OccursAt(front, StructKeyword, j) {
      StructNotInside(n, rest, j);
      assert (front + (" " + rest))[j..j + |StructKeyword|] == front[j..j + |StructKeyword|];
    }
  }

  lemma NoTypeInShort()
    ensures !Contains("type", TypeKeyword)
  {
  }

  /** In such a declaration no `struct ` starts before the one after the name. */
  lemma StructNotInside(n: string, rest: string, j: nat)
    requires IsIdentifier(n) && !EndsWithStruct(n)
    requires j < |n| + 6
    ensures !OccursAt(TypeKeyword + n + " " + StructKeyword + rest, StructKeyword, j)
  {
    var head := TypeKeyword + n;
    var tail := " " + StructKeyword + rest;
    assert head + tail == TypeKeyword + n + " " + StructKeyword + rest;
    if j + 6 != |head| {
      assert forall i :: 5 <= i < |head| ==> head[i] == n[i - 5];
      NoStructOverSpace(head, tail, j);
    } else if j < 5 {
      NoStructInKeyword(head, tail, j);
    } else {
      assert head[j..j + 6] == n[|n| - 6..];
      NoStructAtName(head, tail, j);
    }
  }

  /** A `struct ` that would need a space where there is none. */
  lemma NoStructOverSpace(head: string, tail: string, j: nat)
    requires j + 6 != |head| && j <= |head|
    requires forall i :: 5 <= i < |head| ==> head[i] != ' '
    requires |tail| >= 8 && tail[1..8] == StructKeyword
    ensures !OccursAt(head + tail, StructKeyword, j)
  {
    SpaceNotAt(head, tail, j + 6);
    if j + 7 <= |head + tail| {
      assert (head + tail)[j..j + 7][6] == (head + tail)[j + 6];
    }
  }

  /** A `struct ` starting inside the leading `type` keyword. */
  lemma NoStructInKeyword(head: string, tail: string, j: nat)
    requires j < 5 && |head| >= 5 && head[..5] == TypeKeyword
    ensures !OccursAt(head + tail, StructKeyword, j)
  {
    assert head[j] == TypeKeyword[j] != 's';
    if j + 7 <= |head + tail| {
      assert (head + tail)[j..j + 7][0] == head[j];
    }
  }

  /** A `struct ` whose first six letters would be the end of the name. */
  lemma NoStructAtName(head: string, tail: string, j: nat)
    requires j + 6 == |head| && head[j..j + 6] != "struct"
    ensures !OccursAt(head + tail, StructKeyword, j)
  {
    if j + 7 <= |head + tail| {
      assert (head + tail)[j..j + 7][..6] == head[j..j + 6];
    }
  }

  /** Within `type N` before its end, and within ` struct ` after the
      leading space, no character is a space. */
  lemma SpaceNotAt(head: string, tail: string, k: nat)
    requires 5 <= k < |head| + 7 && k != |head|
    requires forall i :: 5 <= i < |head| ==> head[i] != ' '
    requires |tail| >= 8 && tail[1..8] == StructKeyword
    ensures (head + tail)[k] != ' '
  {
    if k > |head| {
      assert tail[k - |head|] == tail[1..8][k - |head| - 1] == StructKeyword[k - |head| - 1];
      assert StructKeyword[k - |head| - 1] != ' ';
    }
  }

  lemma TrimOneSpace(n: string)
    requires |n| > 0 && !IsSpace(n[0]) && !IsSpace(n[|n| - 1])
    ensures Trim(n + " ") == n
  {
    var s := n + " ";
    assert TrimLeft(s) == s;
    assert s[..|s| - 1] == n;
    assert TrimRight(s) == TrimRight(n);
    TrimFixed(n);
  }

  const AliasTag := "@Alias="

  /** `w` is the first space-separated word of `s`. */
  ghost predicate FirstWord(s: string, w: string) {
    |w| <= |s| && w == s[..|w|] && ' ' !in w && (|w| == |s| || s[|w|] == ' ')
  }

  /** GetTypeAlias: with no `@Alias=` on the marker line, the type name with
      its first letter lower-cased (an error for an empty name, which the
      source slices); otherwise the first word after `@Alias=`. */
  function GetTypeAlias(line: string, typeName: string, at: nat): (r: Result<string>)
    ensures !Contains(line, AliasTag) ==> (r.Fail? <==> typeName == "")
    ensures !Contains(line, AliasTag) && r.Ok? ==>
      |r.value| == |typeName| && r.value[0] == ToLowerChar(typeName[0]) && r.value[1..] == typeName[1..]
    ensures Contains(line, AliasTag) ==>
      r.Ok? && FirstWord(line[IndexOf(line, AliasTag) + |AliasTag|..], r.value)
  {
    var index := IndexOf(line, AliasTag);
    if index == -1 then
      if |typeName| == 0 then Fail(EmptyTypeName(at)) else Ok(LowerFirst(typeName))
    else
      var after := line[index + |AliasTag|..];
      SplitHead(after, ' ');
      Ok(Split(after, ' ')[0])
  }

  // ---------------------------------------------------------------------
  // Declaration blocks

  /** Opening minus closing braces on one line. */
  function Net(line: string): int {
    CountChar(line, '{') - CountChar(line, '}')
  }

  /** The running brace count after the given lines. */
  function Depth(ls: seq<string>): int {
    if |ls| == 0 then 0 else Depth(ls[..|ls| - 1]) + Net(ls[|ls| - 1])
  }

  /** The running count from line `start` through line `k`. */
  ghost function CountThrough(lines: seq<string>, start: int, k: int): int
    requires 0 <= start <= k + 1 <= |lines|
  {
    Depth(lines[start..k + 1])
  }

  /** Line `e` is the first line at or after `start` where the running count
      started at `start` is back to zero. */
  ghost predicate ClosesAt(lines: seq<string>, start: int, e: int) {
    && 0 <= start <= e < |lines|
    && CountThrough(lines, start, e) == 0
    && forall k :: start <= k < e ==> CountThrough(lines, start, k) != 0
  }

  /** The running count started at `start` never returns to zero. */
  ghost predicate NeverCloses(lines: seq<string>, start: int)
    requires 0 <= start <= |lines|
  {
    forall k :: start <= k < |lines| ==> CountThrough(lines, start, k) != 0
  }

  /** The brace loop of getConfiguration from `pos`, with `count` the running
      count of the lines already passed. None where the source runs off the
      end of the file. */
  function BlockEndFrom(lines: seq<string>, start: nat, pos: nat, count: int): (r: Option<nat>)
    requires start <= pos <= |lines|
    requires count == Depth(lines[start..pos])
    requires forall k :: start <= k < pos ==> CountThrough(lines, start, k) != 0
    ensures r.Some? ==> ClosesAt(lines, start, r.value)
    ensures r.None? ==> NeverCloses(lines, start)
    decreases |lines| - pos
  {
    if pos == |lines| then None
    else
      var next := count + Net(lines[pos]);
      assert lines[start..pos + 1][..pos - start] == lines[start..pos];
      assert CountThrough(lines, start, pos) == next;
      if next == 0 then Some(pos) else BlockEndFrom(lines, start, pos + 1, next)
  }

  /** One extracted declaration: its name, its alias and its block, from the
      declaration line through the line that balances the braces. */
  datatype Declaration = Declaration(name: string, alias: string, block: seq<string>)

  /** The per-marker body of getConfiguration. The source reads the line
      after the marker, computes name and alias, then counts braces from the
      declaration line; each way it can fail is an error here. */
  function ExtractBlock(lines: seq<string>, index: nat): (r: Result<Declaration>)
    ensures index + 1 >= |lines| ==> r == Fail(MissingDeclaration(index))
    ensures r.Ok? ==>
      && index + 1 < |lines|
      && |r.value.block| >= 1
      && ClosesAt(lines, index + 1, index + |r.value.block|)
      && r.value.block == lines[index + 1..index + 1 + |r.value.block|]
      && r.value.name == GetTypeName(lines[index + 1])
      && GetTypeAlias(lines[index], r.value.name, index + 1) == Ok(r.value.alias)
    ensures index + 1 < |lines| && GetTypeAlias(lines[index], GetTypeName(lines[index + 1]), index + 1).Ok? ==>
      (r.Fail? <==> NeverCloses(lines, index + 1))
  {
    if index + 1 >= |lines| then Fail(MissingDeclaration(index))
    else
      var name := GetTypeName(lines[index + 1]);
      var alias :- GetTypeAlias(lines[index], name, index + 1);
      BlockFrom(lines, index + 1, name, alias)
  }

  /** The declaration whose block starts at line `start`: the lines up to
      the one where the brace count first returns to zero, or an error when
      it never does. */
  function BlockFrom(lines: seq<string>, start: nat, name: string, alias: string): (r: Result<Declaration>)
    requires start < |lines|
    ensures r.Fail? <==> NeverCloses(lines, start)
    ensures r.Ok? ==>
      && r.value.name == name && r.value.alias == alias
      && |r.value.block| >= 1
      && ClosesAt(lines, start, start + |r.value.block| - 1)
      && r.value.block == lines[start..start + |r.value.block|]
  {
    assert lines[start..start] == [];
    match BlockEndFrom(lines, start, start, 0)
    case None => Fail(UnbalancedBlock(start))
    case Some(e) => Ok(Declaration(name, alias, lines[start..e + 1]))
  }

  /** getConfiguration's two results: the blocks, one per marker, and the
      alias of each type name. */
  datatype Configurations = Configurations(types: seq<seq<string>>, aliases: map<string, string>)

  /** The declarations of the given markers, in marker order; the first
      failing marker's error otherwise. */
  function ExtractAll(lines: seq<string>, indexes: seq<nat>): (r: Result<seq<Declaration>>)
    ensures r.Ok? <==> forall k :: 0 <= k < |indexes| ==> ExtractBlock(lines, indexes[k]).Ok?
    ensures r.Ok? ==> |r.value| == |indexes|
    ensures r.Ok? ==> forall k :: 0 <= k < |indexes| ==> ExtractBlock(lines, indexes[k]) == Ok(r.value[k])
    ensures r.Fail? ==> exists k :: FirstFailure(Blocks(lines, indexes), k) && r.error == Blocks(lines, indexes)[k].error
  {
    All(Blocks(lines, indexes))
  }

  /** The per-marker results, in marker order. */
  function Blocks(lines: seq<string>, indexes: seq<nat>): (rs: seq<Result<Declaration>>)
    ensures |rs| == |indexes|
    ensures forall k :: 0 <= k < |indexes| ==> rs[k] == ExtractBlock(lines, indexes[k])
  {
    seq(|indexes|, k requires 0 <= k < |indexes| => ExtractBlock(lines, indexes[k]))
  }

  /** The alias assignments `name -> alias` of the declarations, in order. */
  function AliasEntries(ds: seq<Declaration>): (r: seq<Option<(string, string)>>)
    ensures |r| == |ds|
    ensures forall k :: 0 <= k < |ds| ==> r[k] == Some((ds[k].name, ds[k].alias))
  {
    seq(|ds|, k requires 0 <= k < |ds| => Some((ds[k].name, ds[k].alias)))
  }

  /** The alias map getConfiguration assigns declaration by declaration:
      exactly one entry per declared name. */
  function AliasMap(ds: seq<Declaration>): (m: map<string, string>)
    ensures m.Keys == set k | 0 <= k < |ds| :: ds[k].name
  {
    var es := AliasEntries(ds);
    var m := FromEntries(es);
    forall name | name in m ensures name in set k | 0 <= k < |ds| :: ds[k].name {
      var i :| 0 <= i < |es| && es[i].Some? && es[i].value.0 == name;
      assert ds[i].name == name;
    }
    forall k | 0 <= k < |ds| ensures ds[k].name in m {
      assert es[k].Some? && es[k].value.0 == ds[k].name;
    }
    m
  }

  /** The alias map of accepted results has one key per declared name. */
  lemma AliasKeys(rs: seq<Result<Declaration>>, ds: seq<Declaration>)
    requires |rs| == |ds| && forall k :: 0 <= k < |rs| ==> rs[k] == Ok(ds[k])
    ensures forall name :: name in AliasMap(ds) <==> exists k :: 0 <= k < |rs| && rs[k].value.name == name
  {
  }

  /** Declaration `k` declares `name` and no later declaration does. */
  ghost predicate LastDeclarationOf(ds: seq<Declaration>, k: int, name: string) {
    && 0 <= k < |ds|
    && ds[k].name == name
    && forall j :: k < j < |ds| ==> ds[j].name != name
  }

  /** Each name's alias is the one given by the last declaration of that
      name: a later marker for the same type name overwrites an earlier one. */
  lemma AliasMapLastWins(ds: seq<Declaration>)
    ensures forall k, name :: LastDeclarationOf(ds, k, name) ==>
      name in AliasMap(ds) && AliasMap(ds)[name] == ds[k].alias
  {
    var es := AliasEntries(ds);
    FromEntriesLastWins(es);
    forall k, name | LastDeclarationOf(ds, k, name)
      ensures LastFor(es, k)
    {
    }
  }

  /** Result `k` declares `name` and no later accepted result does. */
  ghost predicate LastMarkerOf(rs: seq<Result<Declaration>>, k: int, name: string) {
    && 0 <= k < |rs|
    && rs[k].Ok?
    && rs[k].value.name == name
    && forall j :: k < j < |rs| && rs[j].Ok? ==> rs[j].value.name != name
  }

  /** The last-wins rule, read off the accepted results of the markers. */
  lemma AliasValues(rs: seq<Result<Declaration>>, ds: seq<Declaration>)
    requires |rs| == |ds| && forall k :: 0 <= k < |rs| ==> rs[k] == Ok(ds[k])
    ensures forall k, name :: LastMarkerOf(rs, k, name) ==>
      name in AliasMap(ds) && AliasMap(ds)[name] == rs[k].value.alias
  {
    AliasMapLastWins(ds);
    forall k, name | LastMarkerOf(rs, k, name) ensures LastDeclarationOf(ds, k, name) {
      forall j | k < j < |ds| ensures ds[j].name != name {
        assert rs[j] == Ok(ds[j]);
      }
    }
  }

  /** getConfiguration: one block per marker, in marker order, and the alias
      map assigned marker by marker; the first failing marker's error
      otherwise. */
  function GetConfiguration(lines: seq<string>, indexes: seq<nat>): (r: Result<Configurations>)
    ensures r.Ok? <==> forall k :: 0 <= k < |indexes| ==> ExtractBlock(lines, indexes[k]).Ok?
    ensures r.Ok? ==> |r.value.types| == |indexes|
    ensures r.Ok? ==> forall k :: 0 <= k < |indexes| ==>
      r.value.types[k] == ExtractBlock(lines, indexes[k]).value.block
    ensures r.Ok? ==> forall name :: name in r.value.aliases <==>
      exists k :: 0 <= k < |indexes| && Blocks(lines, indexes)[k].value.name == name
    ensures r.Ok? ==> forall k, name :: LastMarkerOf(Blocks(lines, indexes), k, name) ==>
      name in r.value.aliases && r.value.aliases[name] == Blocks(lines, indexes)[k].value.alias
  {
    var ds :- ExtractAll(lines, indexes);
    Ok(ConfigurationsOf(Blocks(lines, indexes), ds))
  }

  /** The configuration read from markers that were all accepted: their
      blocks in order, and their aliases with the last marker of a name
      winning. */
  function ConfigurationsOf(rs: seq<Result<Declaration>>, ds: seq<Declaration>): (c: Configurations)
    requires |rs| == |ds| && forall k :: 0 <= k < |rs| ==> rs[k] == Ok(ds[k])
    ensures |c.types| == |ds|
    ensures forall k :: 0 <= k < |ds| ==> c.types[k] == ds[k].block
    ensures forall name :: name in c.aliases <==> exists k :: 0 <= k < |rs| && rs[k].value.name == name
    ensures forall k, name :: LastMarkerOf(rs, k, name) ==>
      name in c.aliases && c.aliases[name] == rs[k].value.alias
  {
    AliasKeys(rs, ds);
    AliasValues(rs, ds);
    Configurations(seq(|ds|, k requires 0 <= k < |ds| => ds[k].block), AliasMap(ds))
  }

  /** The type name a line declares, if it is a struct declaration line. */
  function StructName(line: string): (r: Option<string>)
    ensures r.Some? <==> IsStructLine(line)
    ensures r.Some? ==> r.value == GetTypeName(line)
  {
    if IsStructLine(line) then Some(GetTypeName(line)) else None
  }

  /** getStructType: the name of every struct declaration line, in line
      order; lines that are not struct declarations contribute nothing. */
  function GetStructType(lines: seq<string>): (r: seq<string>)
    ensures |r| <= |lines|
    ensures forall i :: 0 <= i < |lines| && IsStructLine(lines[i]) ==> GetTypeName(lines[i]) in r
    ensures forall k :: 0 <= k < |r| ==>
      exists i :: 0 <= i < |lines| && StructName(lines[i]) == Some(r[k])
  {
    var names := seq(|lines|, i requires 0 <= i < |lines| => StructName(lines[i]));
    assert forall i :: 0 <= i < |lines| ==> names[i] == StructName(lines[i]);
    Values(names)
  }

  /** The struct names of two runs of lines are those of the first run
      followed by those of the second. */
  lemma GetStructTypeAppend(a: seq<string>, b: seq<string>)
    ensures GetStructType(a + b) == GetStructType(a) + GetStructType(b)
  {
    var na := seq(|a|, i requires 0 <= i < |a| => StructName(a[i]));
    var nb := seq(|b|, i requires 0 <= i < |b| => StructName(b[i]));
    var nab := seq(|a + b|, i requires 0 <= i < |a + b| => StructName((a + b)[i]));
    assert nab == na + nb;
    ValuesAppend(na, nb);
  }
}
