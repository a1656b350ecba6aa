/**
 Blank tests and the default per-kind validators of the utils package.
 */
module Utils {

  /** A text of `n` spaces. */
  function Spaces(n: nat): (r: string)
    ensures |r| == n && forall i :: 0 <= i < n ==> r[i] == ' '
  {
    if n == 0 then "" else [' '] + Spaces(n - 1)
  }

  /** Blank means empty or made of the space character only: a tab or a
      newline makes a text non-blank. */
  function IsBlank(s: string): (r: bool)
    ensures r <==> forall i :: 0 <= i < |s| ==> s[i] == ' '
  {
    if |s| == 0 then true
    else if s[0] != ' ' then false
    else IsBlank(s[1..])
  }

  function NotBlank(s: string): (r: bool)
    ensures r <==> exists i :: 0 <= i < |s| && s[i] != ' '
  {
    !IsBlank(s)
  }

  lemma EmptyIsBlank()
    ensures IsBlank("")
    ensures !NotBlank("")
  {
  }

  /** Only the space character is blank; other white space is not. */
  lemma OtherWhiteSpaceIsNotBlank()
    ensures !IsBlank("\t") && !IsBlank("\n") && !IsBlank(" \t ")
    ensures NotBlank("\t")
  {
    assert " \t "[1] == '\t';
  }

  /** Spaces added on either side never change whether a text is blank. */
  lemma {:induction false} PaddingKeepsBlankness(s: string, left: nat, right: nat)
    ensures IsBlank(Spaces(left) + s + Spaces(right)) == IsBlank(s)
  {
    var t := Spaces(left) + s + Spaces(right);
    if IsBlank(s) {
      forall i | 0 <= i < |t| ensures t[i] == ' ' {
        if i < left {
        } else if i < left + |s| {
          assert t[i] == s[i - left];
        } else {
          assert t[i] == Spaces(right)[i - left - |s|];
        }
      }
    } else {
      var j :| 0 <= j < |s| && s[j] != ' ';
      assert t[left + j] == s[j];
    }
  }

  /** The value kinds the default validators are registered for, plus the
      record kind, which has none. */
  datatype Kind = String | Uint | Int | Float64 | Bool | Struct

  /** GetDefaultValidators over string-valued data: the String validator
      rejects blank text, the numeric and boolean ones accept everything, and
      no other kind has a validator. */
  function GetDefaultValidators(): (r: map<Kind, string -> bool>)
    ensures r.Keys == {Kind.String, Kind.Uint, Kind.Int, Kind.Float64, Kind.Bool}
    ensures forall s :: r[Kind.String](s) == NotBlank(s)
    ensures forall k, s :: k in r && k != Kind.String ==> r[k](s)
  {
    map[
      Kind.String := (s: string) => !IsBlank(s),
      Kind.Uint := (s: string) => true,
      Kind.Int := (s: string) => true,
      Kind.Float64 := (s: string) => true,
      Kind.Bool := (s: string) => true
    ]
  }
}
