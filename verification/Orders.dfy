/** Python's `sorted` and `min`: total orders, lexicographic comparison and sorting. */
module Orders {

  ghost predicate TotalOrder<T(!new)>(le: (T, T) -> bool) {
    && (forall x :: le(x, x))
    && (forall x, y :: le(x, y) && le(y, x) ==> x == y)
    && (forall x, y, z :: le(x, y) && le(y, z) ==> le(x, z))
    && (forall x, y :: le(x, y) || le(y, x))
  }

  /** Sequence comparison as Python compares strings and tuples. */
  predicate LexLe<T(==)>(le: (T, T) -> bool, a: seq<T>, b: seq<T>) {
    a == [] || (b != [] && if a[0] == b[0] then LexLe(le, a[1..], b[1..]) else le(a[0], b[0]))
  }

  function Elements<T>(s: seq<T>): set<T> {
    set x | x in s
  }

  /** Strictly increasing: what `sorted` returns on a collection without duplicates. */
  ghost predicate Ascending<T(!new)>(le: (T, T) -> bool, s: seq<T>) {
    forall i, j {:trigger InOrder(le, s, i, j)} :: 0 <= i < j < |s| ==> InOrder(le, s, i, j)
  }

  ghost predicate InOrder<T(!new)>(le: (T, T) -> bool, s: seq<T>, i: int, j: int) {
    0 <= i < j < |s| && le(s[i], s[j]) && s[i] != s[j]
  }

  ghost predicate Distinct<T(!new)>(s: seq<T>) {
    forall i, j {:trigger Apart(s, i, j)} :: 0 <= i < j < |s| ==> Apart(s, i, j)
  }

  ghost predicate Apart<T(!new)>(s: seq<T>, i: int, j: int) {
    0 <= i < j < |s| && s[i] != s[j]
  }

  lemma {:induction false} LexAntisymmetric<T(!new)>(le: (T, T) -> bool, a: seq<T>, b: seq<T>)
    requires TotalOrder(le) && LexLe(le, a, b) && LexLe(le, b, a)
    ensures a == b
  {
    if a != [] && b != [] {
      LexAntisymmetric(le, a[1..], b[1..]);
      assert a == [a[0]] + a[1..] && b == [b[0]] + b[1..];
    }
  }

  lemma {:induction false} LexTransitive<T(!new)>(le: (T, T) -> bool, a: seq<T>, b: seq<T>, c: seq<T>)
    requires TotalOrder(le) && LexLe(le, a, b) && LexLe(le, b, c)
    ensures LexLe(le, a, c)
  {
    if a != [] && a[0] == b[0] == c[0] {
      LexTransitive(le, a[1..], b[1..], c[1..]);
    }
  }

  lemma {:induction false} LexConnected<T(!new)>(le: (T, T) -> bool, a: seq<T>, b: seq<T>)
    requires TotalOrder(le)
    ensures LexLe(le, a, b) || LexLe(le, b, a)
    ensures LexLe(le, a, a)
  {
    if a != [] {
      LexConnected(le, a[1..], if b != [] then b[1..] else []);
    }
  }

  /** Comparison of equal-length sequences survives appending one more element to each. */
  lemma {:induction false} LexAppend<T(!new)>(le: (T, T) -> bool, a: seq<T>, b: seq<T>, x: T, y: T)
    requires TotalOrder(le) && |a| == |b| && LexLe(le, a, b)
    requires a == b ==> le(x, y)
    ensures LexLe(le, a + [x], b + [y])
  {
    if a != [] {
      assert (a + [x])[1..] == a[1..] + [x] && (b + [y])[1..] == b[1..] + [y];
      if a[0] == b[0] {
        assert a[1..] == b[1..] ==> a == b by {
          assert a == [a[0]] + a[1..] && b == [b[0]] + b[1..];
        }
        LexAppend(le, a[1..], b[1..], x, y);
      }
    } else {
      assert (a + [x])[1..] == [] ;
    }
  }

  lemma DistinctAppend<T(!new)>(s: seq<T>, x: T)
    requires Distinct(s) && x !in s
    ensures Distinct(s + [x])
  {
    var t := s + [x];
    forall i, j {:trigger Apart(t, i, j)} | 0 <= i < j < |t| ensures Apart(t, i, j) {
      assert j < |s| ==> Apart(s, i, j);
    }
  }

  lemma DistinctTail<T(!new)>(s: seq<T>)
    requires Distinct(s) && s != []
    ensures Distinct(s[1..]) && s[0] !in s[1..] && Elements(s[1..]) == Elements(s) - {s[0]}
  {
    var t := s[1..];
    forall i, j {:trigger Apart(t, i, j)} | 0 <= i < j < |t| ensures Apart(t, i, j) {
      assert Apart(s, i + 1, j + 1);
    }
    forall j | 0 <= j < |t| ensures s[0] != t[j] {
      assert Apart(s, 0, j + 1);
    }
    assert s == [s[0]] + t;
    assert forall x :: x in s <==> x == s[0] || x in t;
  }

  lemma DistinctInit<T(!new)>(s: seq<T>)
    requires Distinct(s) && s != []
    ensures Distinct(s[..|s| - 1]) && Elements(s[..|s| - 1]) == Elements(s) - {s[|s| - 1]}
  {
    var n := |s| - 1;
    var t := s[..n];
    forall i, j {:trigger Apart(t, i, j)} | 0 <= i < j < |t| ensures Apart(t, i, j) {
      assert Apart(s, i, j);
    }
    forall i | 0 <= i < n ensures t[i] != s[n] {
      assert Apart(s, i, n);
    }
    assert s == t + [s[n]];
    assert forall x :: x in s <==> x == s[n] || x in t;
  }

  // ---------------------------------------------------------------- sorting

  lemma {:induction false} MinimumExists<T(!new)>(le: (T, T) -> bool, s: set<T>)
    requires TotalOrder(le) && s != {}
    ensures exists m :: m in s && forall y :: y in s ==> le(m, y)
    decreases |s|
  {
    var x :| x in s;
    var rest := s - {x};
    assert forall y :: y in s ==> y == x || y in rest;
    if rest == {} {
      assert forall y :: y in s ==> le(x, y);
    } else {
      MinimumExists(le, rest);
      var m :| m in rest && forall y :: y in rest ==> le(m, y);
      var least := if le(x, m) then x else m;
      assert least in s && forall y :: y in s ==> le(least, y);
    }
  }

  /** `sorted(s)` for a set. */
  function SortSet<T(!new, ==)>(le: (T, T) -> bool, s: set<T>): (r: seq<T>)
    requires TotalOrder(le)
    ensures Ascending(le, r) && Elements(r) == s && |r| == |s|
    decreases |s|
  {
    if s == {} then [] else
      MinimumExists(le, s);
      var m :| m in s && forall y :: y in s ==> le(m, y);
      var rest := SortSet(le, s - {m});
      PrependLeast(le, m, rest, s - {m});
      [m] + rest
  }

  lemma PrependLeast<T(!new)>(le: (T, T) -> bool, m: T, rest: seq<T>, others: set<T>)
    requires Ascending(le, rest) && Elements(rest) == others
    requires m !in others && forall y :: y in others ==> le(m, y)
    ensures Ascending(le, [m] + rest) && Elements([m] + rest) == {m} + others
  {
    var r := [m] + rest;
    assert forall x :: x in r <==> x == m || x in rest;
    forall i, j {:trigger InOrder(le, r, i, j)} | 0 <= i < j < |r| ensures InOrder(le, r, i, j) {
      if i == 0 {
        assert r[j] in Elements(rest);
      } else {
        assert InOrder(le, rest, i - 1, j - 1);
      }
    }
  }

  lemma AscendingAppend<T(!new)>(le: (T, T) -> bool, s: seq<T>, x: T)
    requires Ascending(le, s) && forall y :: y in s ==> le(y, x) && y != x
    ensures Ascending(le, s + [x])
  {
    var r := s + [x];
    forall i, j {:trigger InOrder(le, r, i, j)} | 0 <= i < j < |r| ensures InOrder(le, r, i, j) {
      assert j < |s| ==> InOrder(le, s, i, j);
      assert s[i] in s;
    }
  }

  lemma AscendingTail<T(!new)>(le: (T, T) -> bool, s: seq<T>)
    requires Ascending(le, s) && s != []
    ensures Ascending(le, s[1..]) && s[0] !in s[1..] && Elements(s[1..]) == Elements(s) - {s[0]}
    ensures forall y :: y in s[1..] ==> le(s[0], y)
  {
    var t := s[1..];
    forall i, j {:trigger InOrder(le, t, i, j)} | 0 <= i < j < |t| ensures InOrder(le, t, i, j) {
      assert InOrder(le, s, i + 1, j + 1);
    }
    forall j | 0 <= j < |t| ensures le(s[0], t[j]) && s[0] != t[j] {
      assert InOrder(le, s, 0, j + 1);
    }
    assert s == [s[0]] + t;
    assert forall x :: x in s <==> x == s[0] || x in t;
  }

  function Insert<T(!new, ==)>(le: (T, T) -> bool, x: T, s: seq<T>): (r: seq<T>)
    requires TotalOrder(le) && Ascending(le, s) && x !in s
    ensures Ascending(le, r) && Elements(r) == {x} + Elements(s) && |r| == |s| + 1
  {
    if s == [] then
      [x]
    else
      AscendingTail(le, s);
      if le(x, s[0]) then
        assert forall y :: y in s ==> y == s[0] || y in s[1..];
        PrependLeast(le, x, s, Elements(s));
        [x] + s
      else
        var rest := Insert(le, x, s[1..]);
        PrependLeast(le, s[0], rest, {x} + Elements(s[1..]));
        [s[0]] + rest
  }

  /** `sorted(s)` for a list without duplicates. */
  function SortSeq<T(!new, ==)>(le: (T, T) -> bool, s: seq<T>): (r: seq<T>)
    requires TotalOrder(le) && Distinct(s)
    ensures Ascending(le, r) && Elements(r) == Elements(s) && |r| == |s|
  {
    if s == [] then [] else
      DistinctTail(s);
      var rest := SortSeq(le, s[1..]);
      assert forall x :: x in rest ==> x in Elements(rest);
      Insert(le, s[0], rest)
  }

  lemma NoElements<T>(s: seq<T>)
    ensures Elements(s) == {} <==> s == []
  {
    if s != [] {
      assert s[0] in Elements(s);
    }
  }

  /** A strictly increasing sequence is determined by its elements. */
  lemma {:induction false} AscendingUnique<T(!new)>(le: (T, T) -> bool, a: seq<T>, b: seq<T>)
    requires TotalOrder(le) && Ascending(le, a) && Ascending(le, b) && Elements(a) == Elements(b)
    ensures a == b
  {
    if a == [] {
      NoElements(b);
    } else {
      AscendingTail(le, a);
      assert a[0] in Elements(a);
      NoElements(a);
      AscendingTail(le, b);
      assert b[0] in Elements(b);
      AscendingUnique(le, a[1..], b[1..]);
      assert a == [a[0]] + a[1..] && b == [b[0]] + b[1..];
    }
  }

  // ------------------------------------------- the orders used by the checker

  /** Module names compare as strings do. */
  predicate NameLe(a: string, b: string) {
    LexLe((x: char, y: char) => x <= y, a, b)
  }

  /** Paths compare as tuples of names do. */
  predicate PathLe(a: seq<string>, b: seq<string>) {
    LexLe(NameLe, a, b)
  }

  /** The key `(len(path), path)`. */
  predicate ShortLexLe(a: seq<string>, b: seq<string>) {
    |a| < |b| || (|a| == |b| && PathLe(a, b))
  }

  /** The key `(-len(component), component)`. */
  predicate LargestFirst(a: seq<string>, b: seq<string>) {
    |a| > |b| || (|a| == |b| && PathLe(a, b))
  }

  lemma NameLeTotal()
    ensures TotalOrder(NameLe)
  {
    var le := (x: char, y: char) => x <= y;
    assert forall a, b :: NameLe(a, b) == LexLe(le, a, b);
    forall a, b ensures NameLe(a, a) && (NameLe(a, b) || NameLe(b, a)) {
      LexConnected(le, a, b);
    }
    forall a, b | NameLe(a, b) && NameLe(b, a) ensures a == b {
      LexAntisymmetric(le, a, b);
    }
    forall a, b, c | NameLe(a, b) && NameLe(b, c) ensures NameLe(a, c) {
      LexTransitive(le, a, b, c);
    }
  }

  lemma PathOrdersTotal()
    ensures TotalOrder(PathLe) && TotalOrder(ShortLexLe) && TotalOrder(LargestFirst)
  {
    NameLeTotal();
    forall a, b ensures PathLe(a, a) && (PathLe(a, b) || PathLe(b, a)) {
      LexConnected(NameLe, a, b);
    }
    forall a, b | PathLe(a, b) && PathLe(b, a) ensures a == b {
      LexAntisymmetric(NameLe, a, b);
    }
    forall a, b, c | PathLe(a, b) && PathLe(b, c) ensures PathLe(a, c) {
      LexTransitive(NameLe, a, b, c);
    }
  }

  // ------------------------------------------------ the same orders, by first difference

  /** Up to `k` the two agree; there `a` ends, or has an element that differs and comes before. */
  ghost predicate DiffersAt<T(!new)>(before: (T, T) -> bool, a: seq<T>, b: seq<T>, k: nat) {
    k <= |a| && k < |b| && a[..k] == b[..k] && (k == |a| || (a[k] != b[k] && before(a[k], b[k])))
  }

  ghost predicate LexBefore<T(!new)>(before: (T, T) -> bool, a: seq<T>, b: seq<T>) {
    exists k: nat :: DiffersAt(before, a, b, k)
  }

  /** At the first differing character `a` has the smaller one, or ends. */
  ghost predicate NameBefore(a: string, b: string) {
    LexBefore((x: char, y: char) => x < y, a, b)
  }

  /** At the first differing name `a` has the one before, or ends. */
  ghost predicate PathBefore(a: seq<string>, b: seq<string>) {
    LexBefore(NameBefore, a, b)
  }

  lemma {:induction false} LexLeExact<T(!new)>(le: (T, T) -> bool, before: (T, T) -> bool, a: seq<T>, b: seq<T>)
    requires forall x, y :: le(x, y) <==> x == y || before(x, y)
    ensures LexLe(le, a, b) <==> a == b || LexBefore(before, a, b)
  {
    if a == [] {
      assert b != [] ==> DiffersAt(before, a, b, 0);
    } else if b != [] && a[0] == b[0] {
      LexLeExact(le, before, a[1..], b[1..]);
      SameHead(before, a, b);
    } else if b != [] {
      assert before(a[0], b[0]) ==> DiffersAt(before, a, b, 0);
      forall k: nat | 0 < k <= |a| && k <= |b| ensures a[..k] != b[..k] {
        assert a[..k][0] == a[0] && b[..k][0] == b[0];
      }
    }
  }

  lemma SameHead<T(!new)>(before: (T, T) -> bool, a: seq<T>, b: seq<T>)
    requires a != [] && b != [] && a[0] == b[0]
    ensures LexBefore(before, a, b) <==> LexBefore(before, a[1..], b[1..])
    ensures a == b <==> a[1..] == b[1..]
  {
    assert a == [a[0]] + a[1..] && b == [b[0]] + b[1..];
    if k: nat :| DiffersAt(before, a, b, k) {
      assert a[1..][..k - 1] == a[..k][1..] && b[1..][..k - 1] == b[..k][1..];
      assert DiffersAt(before, a[1..], b[1..], k - 1);
    }
    if k: nat :| DiffersAt(before, a[1..], b[1..], k) {
      assert a[..k + 1] == [a[0]] + a[1..][..k] && b[..k + 1] == [b[0]] + b[1..][..k];
      assert DiffersAt(before, a, b, k + 1);
    }
  }

  lemma NameLeExact(a: string, b: string)
    ensures NameLe(a, b) <==> a == b || NameBefore(a, b)
  {
    LexLeExact((x: char, y: char) => x <= y, (x: char, y: char) => x < y, a, b);
  }

  lemma PathLeExact(a: seq<string>, b: seq<string>)
    ensures PathLe(a, b) <==> a == b || PathBefore(a, b)
  {
    forall x, y ensures NameLe(x, y) <==> x == y || NameBefore(x, y) {
      NameLeExact(x, y);
    }
    LexLeExact(NameLe, NameBefore, a, b);
  }

  /** Sorted names stand by their first differing characters. */
  lemma NamesInOrder(names: seq<string>, i: nat, j: nat)
    requires Ascending(NameLe, names) && i < j < |names|
    ensures NameBefore(names[i], names[j])
  {
    assert InOrder(NameLe, names, i, j);
    NameLeExact(names[i], names[j]);
  }

  /** `sorted` on a set of module names. */
  function Sorted(names: set<string>): (r: seq<string>)
    ensures Ascending(NameLe, r) && Elements(r) == names && |r| == |names|
  {
    NameLeTotal();
    SortSet(NameLe, names)
  }

  /** `sorted` on a list of distinct module names. */
  function SortedList(names: seq<string>): (r: seq<string>)
    requires Distinct(names)
    ensures Ascending(NameLe, r) && Elements(r) == Elements(names) && |r| == |names|
  {
    NameLeTotal();
    SortSeq(NameLe, names)
  }

  lemma SortedListIsSorted(names: seq<string>)
    requires Distinct(names)
    ensures SortedList(names) == Sorted(Elements(names))
  {
    NameLeTotal();
    AscendingUnique(NameLe, SortedList(names), Sorted(Elements(names)));
  }
}
