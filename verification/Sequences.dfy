/** Small things shared by all modules. */
module Sequences {
  datatype Option<T> = None | Some(value: T)

  function Min(x: nat, y: nat): nat { if x < y then x else y }

  /** s with the elements of data stored at a position. */
  function Splice<T>(s: seq<T>, at: nat, data: seq<T>): (r: seq<T>)
    requires at + |data| <= |s|
    ensures |r| == |s|
  {
    s[..at] + data + s[at + |data|..]
  }

  lemma SpliceNone<T>(s: seq<T>, at: nat, data: seq<T>)
    requires at <= |s|
    ensures Splice(s, at, data[..0]) == s
  {
  }

  lemma SplicedFirst<T>(s: seq<T>, data: seq<T>)
    requires |data| <= |s|
    ensures Splice(s, 0, data[..|data|])[..|data|] == data
  {
  }

  /** Storing data piece by piece, or storing more of it again. */
  lemma SpliceMore<T>(s: seq<T>, at: nat, data: seq<T>, m: nat, n: nat)
    requires at + |data| <= |s| && m <= n <= |data|
    ensures Splice(Splice(s, at, data[..m]), at + m, data[m..n]) == Splice(s, at, data[..n])
    ensures Splice(Splice(s, at, data[..m]), at, data[..n]) == Splice(s, at, data[..n])
  {
    var r := Splice(s, at, data[..n]);
    assert Splice(Splice(s, at, data[..m]), at + m, data[m..n]) == r;
    assert Splice(Splice(s, at, data[..m]), at, data[..n]) == r;
  }

  /** data is what d holds at a position. */
  ghost predicate Holds<T(!new)>(d: seq<T>, at: nat, data: seq<T>) {
    at + |data| <= |d| && data == d[at..at + |data|]
  }

  lemma HoldsPart<T(!new)>(d: seq<T>, at: nat, data: seq<T>, m: nat, n: nat)
    requires Holds(d, at, data) && m <= n <= |data|
    ensures Holds(d, at + m, data[m..n])
  {
    var x, y := data[m..n], d[at + m..at + n];
    assert |x| == |y| && forall i :: 0 <= i < |x| ==> x[i] == y[i];
  }
}
