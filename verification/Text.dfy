/**
 * The string operations the documentation store relies on, written out for
 * ASCII: `String.toUpperCase`, `String.compareTo`, Java's rendering of a
 * possibly-null string inside `+`, and the least key of a set under
 * `compareTo` (the first element a sort by name yields).
 */
module Text {
  import opened Wrappers

  /** Upper-case form of one character; only 'a'..'z' change. */
  function UpperChar(c: char): char {
    if 'a' <= c <= 'z' then (c as int - 32) as char else c
  }

  /** `s.toUpperCase()`, restricted to the ASCII letters. */
  function Upper(s: string): (r: string)
    ensures |r| == |s|
    ensures forall i :: 0 <= i < |s| ==> r[i] == UpperChar(s[i])
  {
    if s == [] then [] else [UpperChar(s[0])] + Upper(s[1..])
  }

  /** No character of `s` is a lower-case ASCII letter. */
  predicate IsUpper(s: string) {
    forall i :: 0 <= i < |s| ==> !('a' <= s[i] <= 'z')
  }

  /** Upper-casing twice is upper-casing once. */
  lemma UpperIdempotent(s: string)
    ensures Upper(Upper(s)) == Upper(s)
  {
    assert forall i :: 0 <= i < |s| ==> Upper(Upper(s))[i] == Upper(s)[i];
  }

  /** The fixed points of `Upper` are exactly the strings without a lower-case letter. */
  lemma UpperFixedPoints(s: string)
    ensures Upper(s) == s <==> IsUpper(s)
    ensures IsUpper(Upper(s))
  {
    if Upper(s) == s {
      forall i | 0 <= i < |s| ensures !('a' <= s[i] <= 'z') {
        assert Upper(s)[i] == UpperChar(s[i]);
      }
    }
    if IsUpper(s) {
      assert forall i :: 0 <= i < |s| ==> Upper(s)[i] == s[i];
    }
  }

  /** Java's rendering of a String reference inside `+`: `null` becomes "null". */
  function Str(o: Option<string>): (r: string)
    ensures o.Some? ==> r == o.value
    ensures o.None? ==> r == "null"
  {
    match o
    case Some(s) => s
    case None => "null"
  }

  /**
   * `a.compareTo(b)`: the difference of the first differing characters,
   * or of the lengths when one string is a prefix of the other.
   */
  function CompareTo(a: string, b: string): (r: int)
    ensures a <= b || b <= a ==> r == |a| - |b|
    ensures !(a <= b) && !(b <= a) ==>
      exists i :: FirstDifference(a, b, i) && r == a[i] as int - b[i] as int
  {
    if a == [] || b == [] then |a| - |b|
    else if a[0] != b[0] then
      assert FirstDifference(a, b, 0);
      a[0] as int - b[0] as int
    else
      CommonHead(a, b);
      CompareTo(a[1..], b[1..])
  }

  /** `a` and `b` agree before index `i` and differ at it. */
  predicate FirstDifference(a: string, b: string, i: int) {
    0 <= i < |a| && i < |b| && a[..i] == b[..i] && a[i] != b[i]
  }

  /** Dropping a shared first character keeps prefixes and moves the first difference by one. */
  lemma CommonHead(a: string, b: string)
    requires a != [] && b != [] && a[0] == b[0]
    ensures a <= b <==> a[1..] <= b[1..]
    ensures b <= a <==> b[1..] <= a[1..]
    ensures forall i :: FirstDifference(a[1..], b[1..], i) ==>
      FirstDifference(a, b, i + 1) && a[i + 1] == a[1..][i] && b[i + 1] == b[1..][i]
  {
    assert a == [a[0]] + a[1..] && b == [b[0]] + b[1..];
    forall i | FirstDifference(a[1..], b[1..], i)
      ensures FirstDifference(a, b, i + 1)
    {
      assert a[..i + 1] == [a[0]] + a[1..][..i];
      assert b[..i + 1] == [b[0]] + b[1..][..i];
    }
  }

  /** `a` sorts strictly before `b` under `compareTo`. */
  predicate Before(a: string, b: string) {
    CompareTo(a, b) < 0
  }

  /** `compareTo` is zero exactly on equal strings. */
  lemma {:induction false} CompareToZero(a: string, b: string)
    ensures CompareTo(a, b) == 0 <==> a == b
  {
    if a != [] && b != [] && a[0] == b[0] {
      CompareToZero(a[1..], b[1..]);
      assert a == [a[0]] + a[1..] && b == [b[0]] + b[1..];
    }
  }

  /** Swapping the arguments of `compareTo` negates the result. */
  lemma {:induction false} CompareToAntisymmetric(a: string, b: string)
    ensures CompareTo(a, b) == -CompareTo(b, a)
  {
    if a != [] && b != [] && a[0] == b[0] {
      CompareToAntisymmetric(a[1..], b[1..]);
    }
  }

  /** Of two different strings exactly one sorts before the other. */
  lemma BeforeTotal(a: string, b: string)
    ensures a != b <==> Before(a, b) || Before(b, a)
    ensures !(Before(a, b) && Before(b, a))
  {
    CompareToZero(a, b);
    CompareToAntisymmetric(a, b);
  }

  /** `Before` is transitive. */
  lemma {:induction false} BeforeTransitive(a: string, b: string, c: string)
    requires Before(a, b) && Before(b, c)
    ensures Before(a, c)
  {
    assert b != [] && c != [];
    if a != [] && a[0] == b[0] && b[0] == c[0] {
      BeforeTransitive(a[1..], b[1..], c[1..]);
    }
  }

  /** `k` belongs to `keys` and sorts before every other element of it. */
  predicate IsLeast(k: string, keys: set<string>) {
    k in keys && forall x :: x in keys && x != k ==> Before(k, x)
  }

  /** A non-empty finite set of strings has a least element. */
  lemma {:induction false} LeastExists(keys: set<string>)
    requires keys != {}
    ensures exists k :: IsLeast(k, keys)
    decreases keys
  {
    var y :| y in keys;
    if keys == {y} {
      assert IsLeast(y, keys);
    } else {
      var rest := keys - {y};
      LeastExists(rest);
      var k :| IsLeast(k, rest);
      if Before(k, y) {
        assert IsLeast(k, keys);
      } else {
        BeforeTotal(k, y);
        forall x | x in keys && x != y ensures Before(y, x) {
          if x != k { BeforeTransitive(y, k, x); }
        }
        assert IsLeast(y, keys);
      }
    }
  }

  /** The element of `keys` that sorts before every other one. */
  function Least(keys: set<string>): (k: string)
    requires keys != {}
    ensures k in keys
    ensures forall x :: x in keys && x != k ==> Before(k, x)
  {
    LeastExists(keys);
    LeastUnique(keys);
    var k :| IsLeast(k, keys);
    k
  }

  /** A set has at most one least element. */
  lemma LeastUnique(keys: set<string>)
    ensures forall a, b :: IsLeast(a, keys) && IsLeast(b, keys) ==> a == b
  {
    forall a, b | IsLeast(a, keys) && IsLeast(b, keys) ensures a == b {
      BeforeTotal(a, b);
    }
  }
}
