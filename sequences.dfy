/** Order and uniqueness of the elements of a sequence. */
module Sequences {

  /** No value occurs twice in `s`. */
  predicate NoDuplicates<T(==)>(s: seq<T>) {
    forall i, j :: 0 <= i < j < |s| ==> s[i] != s[j]
  }

  /** Some occurrence of `x` in `s` comes before some occurrence of `y`. */
  predicate Before<T(==)>(s: seq<T>, x: T, y: T) {
    exists i, j :: 0 <= i < j < |s| && s[i] == x && s[j] == y
  }

  /** `y` immediately follows `x` somewhere in `s`. */
  predicate Adjacent<T(==)>(s: seq<T>, x: T, y: T) {
    exists i :: 0 <= i < |s| - 1 && s[i] == x && s[i + 1] == y
  }

  lemma NoDuplicatesCons<T>(h: T, t: seq<T>)
    ensures NoDuplicates([h] + t) <==> h !in t && NoDuplicates(t)
  {
    var s := [h] + t;
    if NoDuplicates(s) {
      forall i, j | 0 <= i < j < |t| ensures t[i] != t[j] {
        assert s[i + 1] == t[i] && s[j + 1] == t[j];
      }
      forall j | 0 <= j < |t| ensures t[j] != h {
        assert s[0] == h && s[j + 1] == t[j] && s[0] != s[j + 1];
      }
    }
    if h !in t && NoDuplicates(t) {
      forall i, j | 0 <= i < j < |s| ensures s[i] != s[j] {
        if i == 0 {
          assert s[j] == t[j - 1];
        } else {
          assert s[i] == t[i - 1] && s[j] == t[j - 1];
        }
      }
    }
  }

  lemma NoDuplicatesSnoc<T>(s: seq<T>, x: T)
    ensures NoDuplicates(s + [x]) <==> x !in s && NoDuplicates(s)
  {
    var s' := s + [x];
    if NoDuplicates(s') {
      forall i, j | 0 <= i < j < |s| ensures s[i] != s[j] {
        assert s'[i] == s[i] && s'[j] == s[j];
      }
      forall i | 0 <= i < |s| ensures s[i] != x {
        assert s'[i] == s[i] && s'[|s|] == x && s'[i] != s'[|s|];
      }
    }
  }

  lemma PrefixTransitive<T>(a: seq<T>, b: seq<T>, c: seq<T>)
    requires a <= b && b <= c
    ensures a <= c
  {
    assert a == b[..|a|] && b == c[..|b|];
    assert c[..|b|][..|a|] == c[..|a|];
  }

  lemma BeforeCons<T>(h: T, t: seq<T>, x: T, y: T)
    ensures Before([h] + t, x, y) <==> (h == x && y in t) || Before(t, x, y)
  {
    var s := [h] + t;
    if Before(s, x, y) {
      var i, j :| 0 <= i < j < |s| && s[i] == x && s[j] == y;
      if i == 0 {
        assert t[j - 1] == y;
      } else {
        assert t[i - 1] == x && t[j - 1] == y;
      }
    }
    if h == x && y in t {
      var j :| 0 <= j < |t| && t[j] == y;
      assert s[0] == x && s[j + 1] == y;
    }
    if Before(t, x, y) {
      var i, j :| 0 <= i < j < |t| && t[i] == x && t[j] == y;
      assert s[i + 1] == x && s[j + 1] == y;
    }
  }

  lemma AdjacentCons<T>(h: T, t: seq<T>, x: T, y: T)
    ensures Adjacent([h] + t, x, y) <==> (h == x && t != [] && t[0] == y) || Adjacent(t, x, y)
  {
    var s := [h] + t;
    if Adjacent(s, x, y) {
      var i :| 0 <= i < |s| - 1 && s[i] == x && s[i + 1] == y;
      if i > 0 {
        assert t[i - 1] == x && t[i] == y;
      }
    }
    if Adjacent(t, x, y) {
      var i :| 0 <= i < |t| - 1 && t[i] == x && t[i + 1] == y;
      assert s[i + 1] == x && s[i + 2] == y;
    }
    if h == x && t != [] && t[0] == y {
      assert s[0] == x && s[1] == y;
    }
  }
}
