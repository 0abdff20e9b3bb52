/**
 The few PHP built-ins the game relies on, stated over Dafny sequences.
 Strings are `seq<char>`; PHP arrays built with `$a[] = ...` are lists,
 so they are modelled as sequences whose keys are 0 .. |s|-1.
 */
module Php {

  /** PHP functions that return a value or `false`. */
  datatype Option<+T> = None | Some(value: T)

  /** No value occurs twice. */
  predicate Distinct<T(==)>(s: seq<T>) {
    forall i, j :: 0 <= i < j < |s| ==> s[i] != s[j]
  }

  /** Appending a new value keeps a list free of duplicates. */
  lemma DistinctAppend<T>(s: seq<T>, x: T)
    requires Distinct(s)
    requires x !in s
    ensures Distinct(s + [x])
  {
    var t := s + [x];
    forall i, j | 0 <= i < j < |t| ensures t[i] != t[j] {
      if j < |s| {
        assert t[i] == s[i] && t[j] == s[j];
      } else {
        assert t[i] == s[i];
      }
    }
  }

  /** `array_search($x, $s)`: the key of the first element equal to `x`,
      or `false` when there is none. */
  function Search<T(==)>(s: seq<T>, x: T): (r: Option<nat>)
    ensures r.None? <==> x !in s
    ensures r.Some? ==> r.value < |s| && s[r.value] == x
    ensures r.Some? ==> forall k :: 0 <= k < r.value ==> s[k] != x
  {
    if |s| == 0 then None
    else if s[0] == x then Some(0)
    else
      match Search(s[1..], x)
      case None => None
      case Some(k) => Some(k + 1)
  }

  /** In a list without duplicates, searching for the element at `i` finds `i`. */
  lemma SearchDistinct<T>(s: seq<T>, i: nat)
    requires Distinct(s)
    requires i < |s|
    ensures Search(s, s[i]) == Some(i)
  {
  }

  /** Appending to a list does not move the first match of a value already
      in it; a value appended for the first time is found at the end. */
  lemma {:induction false} SearchAppend<T>(s: seq<T>, y: T, x: T)
    ensures x in s ==> Search(s + [y], x) == Search(s, x)
    ensures y !in s ==> Search(s + [y], y) == Some(|s|)
  {
    if |s| > 0 {
      assert (s + [y])[1..] == s[1..] + [y];
      SearchAppend(s[1..], y, x);
    }
  }

  /** Reading `$a[$k]` with `$k === false` reads key 0: PHP casts a `false`
      array key to the integer 0. */
  function ArrayKey(r: Option<nat>): nat {
    if r.Some? then r.value else 0
  }

  /** `array_unique($s)`: the elements of `s`, each kept at its first
      occurrence, duplicates dropped. */
  function Unique<T(==)>(s: seq<T>): (r: seq<T>)
    ensures forall i :: 0 <= i < |s| ==> s[i] in r
    ensures forall k :: 0 <= k < |r| ==> r[k] in s
    ensures Distinct(r)
    ensures |r| <= |s|
  {
    if |s| == 0 then []
    else
      var u := Unique(s[..|s| - 1]);
      if s[|s| - 1] in u then u else u + [s[|s| - 1]]
  }

  /** `count(array_unique($s)) === count($s)` holds exactly when `s` has no
      duplicates. */
  lemma {:induction false} UniqueKeepsLengthIffDistinct<T>(s: seq<T>)
    ensures |Unique(s)| == |s| <==> Distinct(s)
  {
    if |s| > 0 {
      var p, x := s[..|s| - 1], s[|s| - 1];
      UniqueKeepsLengthIffDistinct(p);
      assert forall k :: 0 <= k < |p| ==> p[k] == s[k];
      if Distinct(s) {
        assert Distinct(p);
        assert x !in p by {
          forall k | 0 <= k < |p| ensures p[k] != x {
            assert s[k] != s[|s| - 1];
          }
        }
        assert |Unique(s)| == |Unique(p)| + 1;
      } else if Distinct(p) {
        var i, j :| 0 <= i < j < |s| && s[i] == s[j];
        assert j == |p|;
        assert p[i] == x;
        assert Unique(s) == Unique(p);
      } else {
        assert |Unique(p)| < |p|;
      }
    }
  }

  /** PHP's `%` on integers: the remainder takes the sign of the dividend
      (truncated division), unlike Dafny's Euclidean `%`.  The game only
      evaluates it on a move count of at least 2, where the two agree; for a
      negative dividend the contract gives only the sign and the bound. */
  function Rem(a: int, b: int): (r: int)
    requires b > 0
    ensures a >= 0 ==> r == a % b
    ensures a < 0 ==> -b < r <= 0
  {
    if a >= 0 then a % b else -((-a) % b)
  }

  /** `empty($s)` on a string: true for "" and, as a PHP quirk, for "0". */
  predicate Empty(s: string) {
    s == "" || s == "0"
  }

  /** `str_replace(' ', '', $s)`: every space removed, the other characters
      kept in order. */
  function StripSpaces(s: string): (r: string)
    ensures ' ' !in r
    ensures |r| <= |s|
    ensures forall c :: c != ' ' ==> multiset(r)[c] == multiset(s)[c]
    ensures ' ' !in s ==> r == s
  {
    if |s| == 0 then ""
    else
      assert s == [s[0]] + s[1..];
      (if s[0] == ' ' then "" else [s[0]]) + StripSpaces(s[1..])
  }

  /** Removing spaces commutes with concatenation, so `StripSpaces` is fixed
      by its action on single characters. */
  lemma {:induction false} StripSpacesAppend(a: string, b: string)
    ensures StripSpaces(a + b) == StripSpaces(a) + StripSpaces(b)
  {
    if |a| > 0 {
      assert (a + b)[1..] == a[1..] + b;
      StripSpacesAppend(a[1..], b);
    } else {
      assert a + b == b;
    }
  }

  /** `substr($s, 0, $length)`: the longest prefix of `s` no longer than
      `length`. */
  function Prefix(s: string, length: nat): (r: string)
    ensures |r| == if |s| <= length then |s| else length
    ensures r == s[..|r|]
  {
    if |s| <= length then s else s[..length]
  }
}
