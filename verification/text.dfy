/**
 The string primitives the generator relies on (Go's strings.Index,
 LastIndex, Split, Count, TrimSpace, ReplaceAll and the one-letter case
 changes), restricted to ASCII, each with a contract that says what it
 computes independently of how.
 */
module Text {

  /** True when `p` occurs in `s` starting at position `i`. */
  predicate OccursAt(s: string, p: string, i: int) {
    0 <= i && i + |p| <= |s| && s[i..i + |p|] == p
  }

  /** True when `p` occurs somewhere in `s`. */
  ghost predicate Occurs(s: string, p: string) {
    exists i :: OccursAt(s, p, i)
  }

  predicate HasPrefix(s: string, p: string) {
    |p| <= |s| && s[..|p|] == p
  }

  /** The first occurrence of `p` at or after `k`, or -1. */
  function IndexFrom(s: string, p: string, k: nat): (r: int)
    ensures r == -1 || (k <= r && OccursAt(s, p, r))
    ensures r == -1 ==> forall i :: k <= i ==> !OccursAt(s, p, i)
    ensures r != -1 ==> forall i :: k <= i < r ==> !OccursAt(s, p, i)
    decreases |s| - k
  {
    if k + |p| > |s| then -1
    else if s[k..k + |p|] == p then k
    else IndexFrom(s, p, k + 1)
  }

  /** Go's strings.Index: the first position of `p` in `s`, or -1. */
  function IndexOf(s: string, p: string): (r: int)
    ensures r == -1 <==> !Occurs(s, p)
    ensures r != -1 ==> OccursAt(s, p, r) && forall i :: 0 <= i < r ==> !OccursAt(s, p, i)
  {
    IndexFrom(s, p, 0)
  }

  /** strings.Index(s, p) != -1, the containment test the source writes everywhere. */
  predicate Contains(s: string, p: string) {
    IndexOf(s, p) != -1
  }

  lemma ContainsMeansOccurs(s: string, p: string)
    ensures Contains(s, p) <==> Occurs(s, p)
  {
  }

  /** The first occurrence of a one-character pattern. */
  lemma IndexOfChar(s: string, c: char, k: nat)
    requires k < |s| && s[k] == c && c !in s[..k]
    ensures IndexOf(s, [c]) == k
  {
    assert OccursAt(s, [c], k);
    forall i | 0 <= i < k ensures !OccursAt(s, [c], i) {
      assert s[i] == s[..k][i];
      assert s[i..i + 1][0] == s[i];
    }
  }

  /** The first position of a one-character pattern is the first position
      of the character. */
  lemma IndexOfCharSpec(s: string, c: char)
    ensures var r := IndexOf(s, [c]);
      && (r == -1 <==> c !in s)
      && (r != -1 ==> 0 <= r < |s| && s[r] == c && forall i :: 0 <= i < r ==> s[i] != c)
  {
    var r := IndexOf(s, [c]);
    ContainsChar(s, c);
    if r != -1 {
      assert s[r..r + 1][0] == s[r];
      forall i | 0 <= i < r ensures s[i] != c {
        assert !OccursAt(s, [c], i);
        assert s[i..i + 1] == [s[i]];
      }
    }
  }

  /** A one-character pattern occurs exactly where the character does. */
  lemma ContainsChar(s: string, c: char)
    ensures Contains(s, [c]) <==> c in s
  {
    if c in s {
      var k :| 0 <= k < |s| && s[k] == c;
      assert OccursAt(s, [c], k);
    } else {
      AbsentFirstCharNoOccurrence(s, [c]);
    }
  }

  /** Go's strings.LastIndex for a one-character pattern. */
  function LastIndexOfChar(s: string, c: char): (r: int)
    ensures -1 <= r < |s|
    ensures r == -1 <==> c !in s
    ensures r != -1 ==> s[r] == c && forall i :: r < i < |s| ==> s[i] != c
  {
    if |s| == 0 then -1
    else if s[|s| - 1] == c then |s| - 1
    else
      var r := LastIndexOfChar(s[..|s| - 1], c);
      assert s == s[..|s| - 1] + [s[|s| - 1]];
      r
  }

  /** Go's strings.Count for a one-character pattern. */
  function CountChar(s: string, c: char): nat
  {
    if |s| == 0 then 0
    else (if s[0] == c then 1 else 0) + CountChar(s[1..], c)
  }

  lemma CountCharAppend(a: string, b: string, c: char)
    ensures CountChar(a + b, c) == CountChar(a, c) + CountChar(b, c)
  {
    if |a| > 0 {
      assert (a + b)[1..] == a[1..] + b;
    } else {
      assert a + b == b;
    }
  }

  // ---------------------------------------------------------------------
  // Split and Join

  /** Go's strings.Split(s, string(c)): always at least one piece. */
  function Split(s: string, c: char): (r: seq<string>)
    ensures |r| >= 1
    ensures forall i :: 0 <= i < |r| ==> c !in r[i]
    decreases |s|
  {
    if |s| == 0 then [""]
    else
      var rest := Split(s[1..], c);
      if s[0] == c then [""] + rest
      else [[s[0]] + rest[0]] + rest[1..]
  }

  /** The first piece of a split is the longest separator-free prefix. */
  lemma {:induction false} SplitHead(s: string, c: char)
    ensures var h := Split(s, c)[0];
      |h| <= |s| && h == s[..|h|] && (|h| == |s| || s[|h|] == c)
    decreases |s|
  {
    if |s| > 0 && s[0] != c {
      SplitHead(s[1..], c);
    }
  }

  /** Go's strings.Join. */
  function Join(parts: seq<string>, sep: string): string
  {
    if |parts| == 0 then ""
    else if |parts| == 1 then parts[0]
    else parts[0] + sep + Join(parts[1..], sep)
  }

  /** Joining the pieces of a split with the separator gives the text back. */
  lemma {:induction false} JoinSplit(s: string, c: char)
    ensures Join(Split(s, c), [c]) == s
    decreases |s|
  {
    if |s| > 0 {
      var rest := Split(s[1..], c);
      JoinSplit(s[1..], c);
      if s[0] == c {
        assert Split(s, c) == [""] + rest;
        assert Join([""] + rest, [c]) == "" + [c] + Join(rest, [c]);
        assert s == [s[0]] + s[1..];
      } else {
        var parts := Split(s, c);
        assert parts == [[s[0]] + rest[0]] + rest[1..];
        if |rest| == 1 {
          assert s == [s[0]] + s[1..];
        } else {
          assert parts[1..] == rest[1..];
          assert Join(rest, [c]) == rest[0] + [c] + Join(rest[1..], [c]);
          assert s == [s[0]] + s[1..];
        }
      }
    }
  }

  /** Splitting text free of the separator, followed by more text. */
  lemma {:induction false} SplitNoSeparatorPrefix(x: string, y: string, c: char)
    requires c !in x
    ensures Split(x + y, c) == [x + Split(y, c)[0]] + Split(y, c)[1..]
    decreases |x|
  {
    if |x| == 0 {
      assert x + y == y;
      var r := Split(y, c);
      assert x + r[0] == r[0];
      assert r == [r[0]] + r[1..];
    } else {
      assert (x + y)[1..] == x[1..] + y;
      assert (x + y)[0] == x[0] != c;
      SplitNoSeparatorPrefix(x[1..], y, c);
      var rest := Split(x[1..] + y, c);
      var r := Split(y, c);
      assert rest == [x[1..] + r[0]] + r[1..];
      assert Split(x + y, c) == [[x[0]] + rest[0]] + rest[1..];
      assert [x[0]] + (x[1..] + r[0]) == x + r[0];
    }
  }

  /** Splitting a join of separator-free pieces gives the pieces back. */
  lemma {:induction false} SplitJoin(parts: seq<string>, c: char)
    requires |parts| >= 1
    requires forall i :: 0 <= i < |parts| ==> c !in parts[i]
    ensures Split(Join(parts, [c]), c) == parts
    decreases |parts|
  {
    if |parts| == 1 {
      SplitNoSeparatorPrefix(parts[0], "", c);
      assert parts[0] + "" == parts[0];
    } else {
      var tail := Join(parts[1..], [c]);
      SplitJoin(parts[1..], c);
      assert Join(parts, [c]) == parts[0] + ([c] + tail);
      SplitNoSeparatorPrefix(parts[0], [c] + tail, c);
      assert ([c] + tail)[1..] == tail;
      assert Split([c] + tail, c) == [""] + parts[1..];
      assert parts[0] + "" == parts[0];
    }
  }

  // ---------------------------------------------------------------------
  // Whitespace trimming (ASCII only)

  predicate IsSpace(ch: char) {
    ch == ' ' || ch == '\t' || ch == '\n' || ch == '\r' || ch == '\U{0B}' || ch == '\U{0C}'
  }

  function TrimLeft(s: string): (r: string)
    ensures |r| <= |s| && r == s[|s| - |r|..]
    ensures |r| > 0 ==> !IsSpace(r[0])
    ensures forall i :: 0 <= i < |s| - |r| ==> IsSpace(s[i])
  {
    if |s| > 0 && IsSpace(s[0]) then
      var r := TrimLeft(s[1..]);
      assert forall i :: 1 <= i < |s| ==> s[1..][i - 1] == s[i];
      assert s[1..][|s| - 1 - |r|..] == s[|s| - |r|..];
      r
    else s
  }

  function TrimRight(s: string): (r: string)
    ensures |r| <= |s| && r == s[..|r|]
    ensures |r| > 0 ==> !IsSpace(r[|r| - 1])
    ensures forall i :: |r| <= i < |s| ==> IsSpace(s[i])
  {
    if |s| > 0 && IsSpace(s[|s| - 1]) then
      var r := TrimRight(s[..|s| - 1]);
      assert forall i :: 0 <= i < |s| - 1 ==> s[..|s| - 1][i] == s[i];
      assert s[..|s| - 1][..|r|] == s[..|r|];
      r
    else s
  }

  /** `r` is the slice of `s` at `i`, and only white space lies outside it. */
  ghost predicate TrimmedAt(s: string, r: string, i: int) {
    && 0 <= i <= |s| - |r| && r == s[i..i + |r|]
    && (forall k :: 0 <= k < i ==> IsSpace(s[k]))
    && (forall k :: i + |r| <= k < |s| ==> IsSpace(s[k]))
  }

  /** Go's strings.TrimSpace restricted to ASCII white space. */
  function Trim(s: string): (r: string)
    ensures |r| <= |s|
    ensures |r| > 0 ==> !IsSpace(r[0]) && !IsSpace(r[|r| - 1])
  {
    TrimRight(TrimLeft(s))
  }

  /** The trim is the slice of `s` left once white space, and only white
      space, is cut from both ends; so it holds no character `s` lacks. */
  lemma TrimSpec(s: string)
    ensures exists i :: TrimmedAt(s, Trim(s), i)
    ensures forall ch :: ch in Trim(s) ==> ch in s
  {
    var left := TrimLeft(s);
    var r := TrimRight(left);
    var i := |s| - |left|;
    assert r == Trim(s);
    TrimmedAtLeft(s, left, r);
    SliceHoldsNoNewChar(s, r, i);
  }

  /** Cutting white space off the front and then off the back leaves a
      slice with only white space around it. */
  lemma TrimmedAtLeft(s: string, left: string, r: string)
    requires |left| <= |s| && left == s[|s| - |left|..]
    requires forall k :: 0 <= k < |s| - |left| ==> IsSpace(s[k])
    requires |r| <= |left| && r == left[..|r|]
    requires forall k :: |r| <= k < |left| ==> IsSpace(left[k])
    ensures TrimmedAt(s, r, |s| - |left|)
  {
    var i := |s| - |left|;
    assert s[i..i + |r|] == left[..|r|];
    forall k | i + |r| <= k < |s| ensures IsSpace(s[k]) {
      assert s[k] == left[k - i];
    }
  }

  /** A slice holds no character its text lacks. */
  lemma SliceHoldsNoNewChar(s: string, r: string, i: int)
    requires 0 <= i <= |s| - |r| && r == s[i..i + |r|]
    ensures forall ch :: ch in r ==> ch in s
  {
    forall ch | ch in r ensures ch in s {
      var k :| 0 <= k < |r| && r[k] == ch;
      assert r[k] == s[i + k];
    }
  }

  /** A text that neither starts nor ends with white space is its own trim. */
  lemma TrimFixed(s: string)
    requires |s| > 0 ==> !IsSpace(s[0]) && !IsSpace(s[|s| - 1])
    ensures Trim(s) == s
  {
  }

  // ---------------------------------------------------------------------
  // ReplaceAll

  /** Go's strings.ReplaceAll for a non-empty pattern: every occurrence, left
      to right and without overlap, replaced by `rep`. */
  function ReplaceAll(s: string, pat: string, rep: string): string
    requires |pat| > 0
    decreases |s|
  {
    if |s| == 0 then ""
    else if HasPrefix(s, pat) then rep + ReplaceAll(s[|pat|..], pat, rep)
    else [s[0]] + ReplaceAll(s[1..], pat, rep)
  }

  /** Text that cannot start the pattern is copied unchanged. */
  lemma {:induction false} ReplaceAllSkip(x: string, y: string, pat: string, rep: string)
    requires |pat| > 0 && pat[0] !in x
    ensures ReplaceAll(x + y, pat, rep) == x + ReplaceAll(y, pat, rep)
    decreases |x|
  {
    if |x| > 0 {
      assert (x + y)[0] == x[0];
      assert !HasPrefix(x + y, pat);
      assert (x + y)[1..] == x[1..] + y;
      ReplaceAllSkip(x[1..], y, pat, rep);
      assert x == [x[0]] + x[1..];
    } else {
      assert x + y == y;
    }
  }

  /** An occurrence at the front is replaced. */
  lemma ReplaceAllHit(y: string, pat: string, rep: string)
    requires |pat| > 0
    ensures ReplaceAll(pat + y, pat, rep) == rep + ReplaceAll(y, pat, rep)
  {
    assert (pat + y)[..|pat|] == pat;
    assert (pat + y)[|pat|..] == y;
  }

  /** Replacing in text without the pattern's first character is the identity. */
  lemma ReplaceAllNone(x: string, pat: string, rep: string)
    requires |pat| > 0 && pat[0] !in x
    ensures ReplaceAll(x, pat, rep) == x
  {
    ReplaceAllSkip(x, "", pat, rep);
    assert x + "" == x;
  }

  /** A character absent from a text cannot start an occurrence in it. */
  lemma AbsentFirstCharNoOccurrence(s: string, p: string)
    requires |p| > 0 && p[0] !in s
    ensures !Occurs(s, p)
  {
    forall i ensures !OccursAt(s, p, i) {
      if 0 <= i && i + |p| <= |s| {
        assert s[i..i + |p|][0] == s[i];
      }
    }
  }

  // ---------------------------------------------------------------------
  // ASCII case changes of the first letter

  function ToLowerChar(c: char): (r: char)
    ensures 'A' <= c <= 'Z' ==> 'a' <= r <= 'z' && r as int == c as int + 32
    ensures !('A' <= c <= 'Z') ==> r == c
  {
    if 'A' <= c <= 'Z' then (c as int + 32) as char else c
  }

  function ToUpperChar(c: char): (r: char)
    ensures 'a' <= c <= 'z' ==> 'A' <= r <= 'Z' && r as int + 32 == c as int
    ensures !('a' <= c <= 'z') ==> r == c
  {
    if 'a' <= c <= 'z' then (c as int - 32) as char else c
  }

  /** strings.ToLower(s[0:1]) + s[1:] for a non-empty ASCII text. */
  function LowerFirst(s: string): (r: string)
    requires |s| > 0
    ensures |r| == |s| && r[1..] == s[1..] && r[0] == ToLowerChar(s[0])
  {
    [ToLowerChar(s[0])] + s[1..]
  }

  /** strings.ToUpper(s[0:1]) + s[1:] for a non-empty ASCII text. */
  function UpperFirst(s: string): (r: string)
    requires |s| > 0
    ensures |r| == |s| && r[1..] == s[1..] && r[0] == ToUpperChar(s[0])
  {
    [ToUpperChar(s[0])] + s[1..]
  }

  /** Lines each followed by a newline, as the generators build their
      bodies with `+= line + "\n"`. */
  function Terminated(ls: seq<string>): string
  {
    if |ls| == 0 then "" else ls[0] + "\n" + Terminated(ls[1..])
  }

  lemma {:induction false} TerminatedAppend(a: seq<string>, b: seq<string>)
    ensures Terminated(a + b) == Terminated(a) + Terminated(b)
    decreases |a|
  {
    if |a| == 0 {
      assert a + b == b;
    } else {
      assert (a + b)[1..] == a[1..] + b;
      TerminatedAppend(a[1..], b);
    }
  }

  /** Splitting newline-terminated lines at newlines gives the lines back,
      followed by the pieces of whatever comes after them. */
  lemma {:induction false} SplitTerminated(ls: seq<string>, rest: string)
    requires forall i :: 0 <= i < |ls| ==> '\n' !in ls[i]
    ensures Split(Terminated(ls) + rest, '\n') == ls + Split(rest, '\n')
    decreases |ls|
  {
    if |ls| == 0 {
      assert Terminated(ls) + rest == rest;
    } else {
      assert forall i :: 0 <= i < |ls| - 1 ==> ls[1..][i] == ls[i + 1];
      SplitTerminated(ls[1..], rest);
      SplitTerminatedFront(ls, rest);
      FrontThenRest(ls, Split(Terminated(ls) + rest, '\n'), Split(Terminated(ls[1..]) + rest, '\n'), Split(rest, '\n'));
    }
  }

  /** The first terminated line comes off the front of the split. */
  lemma SplitTerminatedFront(ls: seq<string>, rest: string)
    requires |ls| > 0 && '\n' !in ls[0]
    ensures Split(Terminated(ls) + rest, '\n') == [ls[0]] + Split(Terminated(ls[1..]) + rest, '\n')
  {
    var x, b := ls[0], Terminated(ls[1..]);
    assert Terminated(ls) == x + "\n" + b;
    SplitPieceThen(x, b, rest, '\n');
  }

  /** A sequence's head in front of its tail and more is the sequence and more. */
  lemma FrontThenRest<T>(ls: seq<T>, a: seq<T>, b: seq<T>, r: seq<T>)
    requires |ls| > 0 && a == [ls[0]] + b && b == ls[1..] + r
    ensures a == ls + r
  {
    assert ls == [ls[0]] + ls[1..];
  }

  /** A separator-free piece ended by the separator comes off the front of
      whatever follows it. */
  lemma SplitPieceThen(x: string, b: string, rest: string, c: char)
    requires c !in x
    ensures Split(x + [c] + b + rest, c) == [x] + Split(b + rest, c)
  {
    ConcatAssoc(x + [c], b, rest);
    ConcatAssoc(x, [c], b + rest);
    SplitLineThen(x, b + rest, c);
  }

  /** A separator-free piece, the separator and more text split into the
      piece followed by the pieces of the rest. */
  lemma SplitLineThen(x: string, t: string, c: char)
    requires c !in x
    ensures Split(x + ([c] + t), c) == [x] + Split(t, c)
  {
    SplitNoSeparatorPrefix(x, [c] + t, c);
    assert ([c] + t)[1..] == t;
    assert Split([c] + t, c) == [""] + Split(t, c);
    assert x + "" == x;
  }

  /** One separator-free line ended by the separator splits into the line
      and the empty text after it. */
  lemma SplitLine(x: string, c: char)
    requires c !in x
    ensures Split(x + [c], c) == [x, ""]
  {
    SplitNoSeparatorPrefix(x, [c], c);
    var empty: string := [];
    assert [c][1..] == empty;
    assert Split([c], c) == [""] + Split(empty, c);
    assert x + "" == x;
  }

  /** Terminated lines and one last terminated line split back into all of
      them and the empty text after the final separator. */
  lemma SplitTerminatedLast(ls: seq<string>, last: string)
    requires forall i :: 0 <= i < |ls| ==> '\n' !in ls[i]
    requires '\n' !in last
    ensures Split(Terminated(ls) + (last + ['\n']), '\n') == ls + [last, ""]
  {
    SplitTerminated(ls, last + ['\n']);
    SplitLine(last, '\n');
  }

  lemma ConcatAssoc(a: string, b: string, c: string)
    ensures a + (b + c) == a + b + c
  {
  }

  /** A character missing from two texts is missing from the two joined. */
  lemma NotInConcat(a: string, b: string, c: char)
    requires c !in a && c !in b
    ensures c !in a + b
  {
  }

  /** A text is a prefix of itself followed by anything. */
  lemma PrefixOfConcat(a: string, b: string)
    ensures HasPrefix(a + b, a)
  {
    assert (a + b)[..|a|] == a;
  }

  /** A prefix stays a prefix when text is appended. */
  lemma PrefixExtends(s: string, p: string, t: string)
    requires HasPrefix(s, p)
    ensures HasPrefix(s + t, p)
  {
    assert (s + t)[..|p|] == s[..|p|];
  }

  /** An occurrence survives putting text in front, shifted by its length. */
  lemma OccursAfter(p: string, x: string, c: string, i: int)
    requires OccursAt(x, c, i)
    ensures OccursAt(p + x, c, |p| + i)
  {
    assert (p + x)[|p| + i..|p| + i + |c|] == x[i..i + |c|];
  }

  /** An occurrence survives putting text behind. */
  lemma OccursBefore(x: string, q: string, c: string, i: int)
    requires OccursAt(x, c, i)
    ensures OccursAt(x + q, c, i)
  {
    assert (x + q)[i..i + |c|] == x[i..i + |c|];
  }

  /** A text that starts with `a + k`, where `k` does not occur in `a`
      followed by all of `k` but its last character, first has `k` right
      after `a`. */
  lemma FirstAt(s: string, a: string, k: string)
    requires |k| > 0 && |a| + |k| <= |s|
    requires forall j :: 0 <= j < |a| + |k| ==> s[j] == (a + k)[j]
    requires !Contains(a + k[..|k| - 1], k)
    ensures IndexOf(s, k) == |a|
  {
    var x := a + k[..|k| - 1];
    forall i | 0 <= i < |a| ensures !OccursAt(s, k, i) {
      assert !OccursAt(x, k, i);
      assert s[i..i + |k|] == x[i..i + |k|];
    }
    assert s[|a|..|a| + |k|] == k;
    IndexOfFirst(s, k, |a|);
  }

  /** The index of the first occurrence is that occurrence's position. */
  lemma IndexOfFirst(s: string, p: string, k: int)
    requires OccursAt(s, p, k) && forall i :: 0 <= i < k ==> !OccursAt(s, p, i)
    ensures IndexOf(s, p) == k
  {
  }

  /** The texts `f` makes of each element, concatenated in order. */
  function Each(f: string -> string, xs: seq<string>): string
  {
    if |xs| == 0 then "" else f(xs[0]) + Each(f, xs[1..])
  }

  lemma {:induction false} EachAppend(f: string -> string, a: seq<string>, b: seq<string>)
    ensures Each(f, a + b) == Each(f, a) + Each(f, b)
    decreases |a|
  {
    if |a| == 0 {
      assert a + b == b;
    } else {
      assert (a + b)[0] == a[0];
      assert (a + b)[1..] == a[1..] + b;
      EachAppend(f, a[1..], b);
    }
  }

  /** Element `k`'s text stands in the run right after the texts of the
      elements before it. */
  lemma EachAt(f: string -> string, xs: seq<string>, k: nat)
    requires k < |xs|
    ensures Each(f, xs) == Each(f, xs[..k]) + f(xs[k]) + Each(f, xs[k + 1..])
    ensures OccursAt(Each(f, xs), f(xs[k]), |Each(f, xs[..k])|)
  {
    var one := xs[k..];
    assert xs == xs[..k] + one;
    EachAppend(f, xs[..k], one);
    assert one[0] == xs[k];
    assert one[1..] == xs[k + 1..];
    var a, b, c := Each(f, xs[..k]), f(xs[k]), Each(f, xs[k + 1..]);
    assert Each(f, one) == b + c;
    assert a + (b + c) == a + b + c;
    assert OccursAt(b, b, 0);
    OccursAfter(a, b, b, 0);
    OccursBefore(a + b, c, b, |a|);
  }

  /** Element `k`'s text in a run placed between fixed texts stands after
      the text in front and the texts of the elements before it. */
  lemma EachBetween(h: string, e: string, f: string -> string, xs: seq<string>, k: nat)
    requires k < |xs|
    ensures OccursAt(h + Each(f, xs) + e, f(xs[k]), |h| + |Each(f, xs[..k])|)
  {
    EachAt(f, xs, k);
    OccursAfter(h, Each(f, xs), f(xs[k]), |Each(f, xs[..k])|);
    OccursBefore(h + Each(f, xs), e, f(xs[k]), |h| + |Each(f, xs[..k])|);
  }

  /** Two runs of element texts among fixed texts: element `k`'s text in
      each run stands after everything in front of the run and the texts of
      the elements before it. */
  lemma EachAround(h: string, m: string, e: string, f: string -> string, g: string -> string,
                   xs: seq<string>, k: nat)
    requires k < |xs|
    ensures OccursAt(h + Each(f, xs) + m + Each(g, xs) + e, f(xs[k]), |h| + |Each(f, xs[..k])|)
    ensures OccursAt(h + Each(f, xs) + m + Each(g, xs) + e,
      g(xs[k]), |h| + |Each(f, xs)| + |m| + |Each(g, xs[..k])|)
  {
    EachBetween(h, m, f, xs, k);
    OccursBefore(h + Each(f, xs) + m, Each(g, xs) + e, f(xs[k]), |h| + |Each(f, xs[..k])|);
    ConcatAssoc(h + Each(f, xs) + m, Each(g, xs), e);
    EachBetween(h + Each(f, xs) + m, e, g, xs, k);
  }
}
