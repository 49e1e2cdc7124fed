/** Order of and search in Python strings. */
module Strings {
  import opened Common

  /** `a < b`. */
  predicate StringLess(a: string, b: string) {
    if b == [] then false
    else if a == [] then true
    else a[0] < b[0] || (a[0] == b[0] && StringLess(a[1..], b[1..]))
  }

  predicate OccursAt(s: string, part: string, i: nat) {
    i + |part| <= |s| && s[i..i + |part|] == part
  }

  /** `part in s`. */
  predicate HasSubstring(s: string, part: string) {
    exists i: nat | i <= |s| :: OccursAt(s, part, i)
  }

  lemma {:induction false} StringTotal(a: string, b: string)
    ensures a == b || StringLess(a, b) || StringLess(b, a)
  {
    if a != [] && b != [] && a[0] == b[0] {
      StringTotal(a[1..], b[1..]);
      assert a == [a[0]] + a[1..] && b == [b[0]] + b[1..];
    }
  }

  lemma {:induction false} StringTransitive(a: string, b: string, c: string)
    requires StringLess(a, b) && StringLess(b, c)
    ensures StringLess(a, c)
  {
    if a != [] && b != [] && c != [] && a[0] == b[0] && b[0] == c[0] {
      StringTransitive(a[1..], b[1..], c[1..]);
    }
  }

  predicate AscendingStrings(s: seq<string>) {
    forall i, j :: 0 <= i < j < |s| ==> StringLess(s[i], s[j])
  }

  method LeastString(names: set<string>) returns (least: string)
    requires names != {}
    ensures least in names && forall n :: n in names ==> n == least || StringLess(least, n)
  {
    least := Pick(names);
    var rest := names - {least};
    while rest != {}
      invariant rest <= names && least in names
      invariant forall n :: n in names ==> n in rest || n == least || StringLess(least, n)
      decreases |rest|
    {
      var n := Pick(rest);
      rest := rest - {n};
      StringTotal(least, n);
      if StringLess(n, least) {
        forall m | m in names && m !in rest && m != n && m != least
          ensures StringLess(n, m)
        {
          StringTransitive(n, least, m);
        }
        least := n;
      }
    }
  }

  /** `sorted(names)`. */
  method SortedStrings(names: set<string>) returns (s: seq<string>)
    ensures AscendingStrings(s) && forall n :: n in s <==> n in names
  {
    s := [];
    var rest := names;
    while rest != {}
      invariant rest <= names && AscendingStrings(s)
      invariant forall n :: n in s <==> n in names && n !in rest
      invariant forall i, n :: 0 <= i < |s| && n in rest ==> StringLess(s[i], n)
      decreases |rest|
    {
      var least := LeastString(rest);
      rest := rest - {least};
      s := s + [least];
    }
  }

  lemma {:induction false} NotLessThanItself(a: string)
    ensures !StringLess(a, a)
  {
    if a != [] {
      NotLessThanItself(a[1..]);
    }
  }
}
