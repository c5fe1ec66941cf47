/** The ordered containers the engine iterates: `std::set<std::string>` (ordered
    by `std::string`'s lexicographic comparison) held as a strictly sorted
    sequence, and `std::set<int>` iterated in ascending order. */
module OrderedSet {

  /** `std::string` `operator<`: character by character, a proper prefix first. */
  predicate Less(a: string, b: string)
    decreases |a|
  {
    if a == [] then b != []
    else if b == [] then false
    else if a[0] != b[0] then a[0] < b[0]
    else Less(a[1..], b[1..])
  }

  lemma {:induction false} LessIrreflexive(a: string)
    ensures !Less(a, a)
    decreases |a|
  {
    if a != [] {
      LessIrreflexive(a[1..]);
    }
  }

  lemma {:induction false} LessTransitive(a: string, b: string, c: string)
    requires Less(a, b) && Less(b, c)
    ensures Less(a, c)
    decreases |a|
  {
    if a != [] && b != [] && c != [] && a[0] == b[0] && b[0] == c[0] {
      LessTransitive(a[1..], b[1..], c[1..]);
    }
  }

  lemma {:induction false} LessTrichotomy(a: string, b: string)
    ensures a == b || Less(a, b) || Less(b, a)
    decreases |a|
  {
    if a != [] && b != [] && a[0] == b[0] {
      LessTrichotomy(a[1..], b[1..]);
      if a[1..] == b[1..] {
        assert a == [a[0]] + a[1..] && b == [b[0]] + b[1..];
      }
    }
  }

  /** The elements of an ordered string set, in iteration order. */
  ghost predicate StrictlySorted(s: seq<string>)
  {
    forall i, j :: 0 <= i < j < |s| ==> Less(s[i], s[j])
  }

  lemma LessThanAll(x: string, s: seq<string>)
    requires StrictlySorted(s) && s != [] && Less(x, s[0])
    ensures forall j :: 0 <= j < |s| ==> Less(x, s[j])
  {
    forall j | 0 < j < |s| {
      LessTransitive(x, s[0], s[j]);
    }
  }

  /** `std::set<std::string>::insert`: the set gains `x`, stays ordered, and
      an element already present is not added twice. */
  function Insert(s: seq<string>, x: string): (r: seq<string>)
    requires StrictlySorted(s)
    ensures StrictlySorted(r)
    ensures forall y :: y in r <==> y in s || y == x
    ensures |r| == if x in s then |s| else |s| + 1
  {
    if s == [] then [x]
    else if x == s[0] then s
    else if Less(x, s[0]) then
      LessThanAll(x, s);
      LessIrreflexive(x);
      [x] + s
    else
      LessTrichotomy(x, s[0]);
      var rest := Insert(s[1..], x);
      assert forall y :: y in rest ==> Less(s[0], y);
      [s[0]] + rest
  }

  /** Ascending order of ints, as `std::set<int>` iterates. */
  predicate Increasing(s: seq<int>)
  {
    forall i, j :: 0 <= i < j < |s| ==> s[i] < s[j]
  }

  /** The least element of a set that holds `w`. */
  lemma {:induction false} MinOf(s: set<int>, w: int) returns (m: int)
    requires w in s
    ensures m in s && forall x :: x in s ==> m <= x
    decreases s
  {
    if exists y :: y in s - {w} {
      var y :| y in s - {w};
      var m' := MinOf(s - {w}, y);
      m := if w < m' then w else m';
      assert forall x :: x in s ==> x == w || x in s - {w};
    } else {
      m := w;
      assert forall x :: x in s ==> x == w || x in s - {w};
    }
  }

  lemma MinExists(s: set<int>, w: int)
    requires w in s
    ensures exists m :: m in s && forall x :: x in s ==> m <= x
  {
    var m := MinOf(s, w);
  }

  /** The least element of a set that holds `w`. */
  ghost function Least(s: set<int>, w: int): (m: int)
    requires w in s
    ensures m in s && forall x :: x in s ==> m <= x
  {
    MinExists(s, w);
    var m :| m in s && forall x :: x in s ==> m <= x;
    m
  }

  /** The elements of `s` in ascending order. */
  ghost function Ascending(s: set<int>): (r: seq<int>)
    ensures Increasing(r)
    ensures forall x :: x in r <==> x in s
    ensures |r| == |s|
    decreases s
  {
    if exists w :: w in s then
      var w :| w in s;
      var m := Least(s, w);
      var rest := Ascending(s - {m});
      assert forall x :: x in rest ==> m < x;
      assert |s - {m}| == |s| - 1;
      [m] + rest
    else
      assert s == {};
      []
  }

  /** The first element of an ascending sequence is its least. */
  lemma IncreasingHeadLeast(a: seq<int>, x: int)
    requires Increasing(a) && x in a
    ensures a[0] <= x
  {
    var k :| 0 <= k < |a| && a[k] == x;
    if 0 < k {
      assert a[0] < a[k];
    }
  }

  /** An ascending sequence is determined by its elements. */
  lemma {:induction false} IncreasingUnique(a: seq<int>, b: seq<int>)
    requires Increasing(a) && Increasing(b)
    requires forall x :: x in a <==> x in b
    ensures a == b
    decreases |a|
  {
    if a != [] {
      assert a[0] in a;
    }
    if b != [] {
      assert b[0] in b;
    }
    if a != [] && b != [] {
      IncreasingHeadLeast(a, b[0]);
      IncreasingHeadLeast(b, a[0]);
      forall x
        ensures x in a[1..] <==> x in b[1..]
      {
        if x in a[1..] {
          var k :| 1 <= k < |a| && a[k] == x;
          assert a[0] < x && x in b;
        }
        if x in b[1..] {
          var k :| 1 <= k < |b| && b[k] == x;
          assert b[0] < x && x in a;
        }
      }
      IncreasingUnique(a[1..], b[1..]);
      assert a == [a[0]] + a[1..] && b == [b[0]] + b[1..];
    }
  }

  /** Iterating a `std::set<int>` from `begin()` to `end()`. */
  method AscendingIds(s: set<int>) returns (r: seq<int>)
    ensures r == Ascending(s)
  {
    r := [];
    var rest := s;
    while exists w :: w in rest
      invariant rest <= s
      invariant Increasing(r)
      invariant forall x :: x in r <==> x in s && x !in rest
      invariant forall x, y :: x in r && y in rest ==> x < y
      decreases rest
    {
      var w :| w in rest;
      MinExists(rest, w);
      var m :| m in rest && forall x :: x in rest ==> m <= x;
      forall i | 0 <= i < |r|
        ensures r[i] < m
      {
        assert r[i] in r;
      }
      r := r + [m];
      rest := rest - {m};
    }
    IncreasingUnique(r, Ascending(s));
  }
}
