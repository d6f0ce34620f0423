/** Small vocabulary shared by the model's modules. */
module Common {
  datatype Option<+T> = None | Some(value: T)

  /** The members of a sequence. */
  function ToSet<T(!new)>(s: seq<T>): (r: set<T>)
    ensures forall x :: x in r <==> x in s
  {
    set x | x in s
  }

  ghost predicate NoDuplicates<T>(s: seq<T>) {
    forall i, j :: 0 <= i < j < |s| ==> s[i] != s[j]
  }

  lemma {:induction false} ToSetSize<T(!new)>(s: seq<T>)
    requires NoDuplicates(s)
    ensures |ToSet(s)| == |s|
  {
    if s == [] {
      assert ToSet(s) == {};
    } else {
      var front, last := s[..|s| - 1], s[|s| - 1];
      ToSetSize(front);
      assert s == front + [last];
      assert ToSet(s) == ToSet(front) + {last};
      assert last !in ToSet(front);
    }
  }

  lemma NoDuplicatesSplit<T(!new)>(a: seq<T>, b: seq<T>)
    requires NoDuplicates(a + b)
    ensures NoDuplicates(a) && NoDuplicates(b)
    ensures forall x :: x in a ==> x !in b
  {
    var s := a + b;
    forall i, j | 0 <= i < |a| && 0 <= j < |b|
      ensures a[i] != b[j]
    {
      assert s[i] != s[|a| + j];
    }
    assert s[..|a|] == a;
    assert s[|a|..] == b;
    forall i, j | 0 <= i < j < |b|
      ensures b[i] != b[j]
    {
      assert s[|a| + i] != s[|a| + j];
    }
    forall i, j | 0 <= i < j < |a|
      ensures a[i] != a[j]
    {
      assert s[i] != s[j];
    }
  }

  lemma ConcatAssociative<T>(a: seq<T>, b: seq<T>, c: seq<T>)
    ensures (a + b) + c == a + (b + c)
  {
  }

  lemma SplitLast<T>(s: seq<T>)
    requires s != []
    ensures s == s[..|s| - 1] + [s[|s| - 1]]
  {
  }

  lemma ThreeAppends<T>(s: seq<T>, a: seq<T>, b: seq<T>, c: seq<T>)
    ensures s + a + b + c == s + (a + b + c)
  {
  }

  lemma ConsInjective<T>(x: T, xs: seq<T>, y: T, ys: seq<T>)
    ensures [x] + xs == [y] + ys <==> x == y && xs == ys
  {
    if [x] + xs == [y] + ys {
      assert ([x] + xs)[0] == ([y] + ys)[0];
      assert xs == ([x] + xs)[1..] == ([y] + ys)[1..] == ys;
    }
  }

  // ---- Keeping some members of a sequence ----

  /** How many members satisfy a predicate. */
  function Count<T>(s: seq<T>, keep: T -> bool): nat {
    if s == [] then 0 else Count(s[..|s| - 1], keep) + if keep(s[|s| - 1]) then 1 else 0
  }

  /** `r` shows the members of `s` that satisfy `keep`, each of them and nothing else, in their order. */
  ghost predicate ShowsKept<T, U>(s: seq<T>, keep: T -> bool, shows: (T, U) -> bool, r: seq<U>) {
    && |r| == Count(s, keep)
    && forall i :: 0 <= i < |s| && keep(s[i]) ==>
         var k := Count(s[..i], keep);
         k < |r| && shows(s[i], r[k])
  }

  lemma KeptSize<T, U>(s: seq<T>, keep: T -> bool, shows: (T, U) -> bool, r: seq<U>)
    requires ShowsKept(s, keep, shows, r)
    ensures |r| == Count(s, keep)
  {
  }

  lemma ShowsNone<T, U>(keep: T -> bool, shows: (T, U) -> bool)
    ensures ShowsKept([], keep, shows, [])
  {
  }

  lemma ShowsOneMore<T, U>(s: seq<T>, x: T, keep: T -> bool, shows: (T, U) -> bool, r: seq<U>, y: U)
    requires ShowsKept(s, keep, shows, r) && keep(x) && shows(x, y)
    ensures ShowsKept(s + [x], keep, shows, r + [y])
  {
    var t := s + [x];
    assert t[..|s|] == s;
    forall i | 0 <= i < |t| && keep(t[i])
      ensures var k := Count(t[..i], keep); k < |r + [y]| && shows(t[i], (r + [y])[k])
    {
      if i < |s| {
        assert t[..i] == s[..i] && t[i] == s[i];
      }
    }
  }

  lemma ShowsNoMore<T, U>(s: seq<T>, x: T, keep: T -> bool, shows: (T, U) -> bool, r: seq<U>)
    requires ShowsKept(s, keep, shows, r) && !keep(x)
    ensures ShowsKept(s + [x], keep, shows, r)
  {
    var t := s + [x];
    assert t[..|s|] == s;
    forall i | 0 <= i < |t| && keep(t[i])
      ensures var k := Count(t[..i], keep); k < |r| && shows(t[i], r[k])
    {
      assert t[..i] == s[..i] && t[i] == s[i];
    }
  }

  lemma {:induction false} NthKept<T>(s: seq<T>, keep: T -> bool, k: nat)
    requires k < Count(s, keep)
    ensures exists i :: 0 <= i < |s| && keep(s[i]) && Count(s[..i], keep) == k
  {
    var front := s[..|s| - 1];
    if k < Count(front, keep) {
      NthKept(front, keep, k);
      var i :| 0 <= i < |front| && keep(front[i]) && Count(front[..i], keep) == k;
      assert front[..i] == s[..i] && keep(s[i]);
    } else {
      assert keep(s[|s| - 1]) && Count(s[..|s| - 1], keep) == k;
    }
  }

  /** What is shown is determined by what is kept. */
  lemma ShownOnce<T, U>(s: seq<T>, keep: T -> bool, shows: (T, U) -> bool, a: seq<U>, b: seq<U>)
    requires ShowsKept(s, keep, shows, a) && ShowsKept(s, keep, shows, b)
    requires forall i, x, y :: 0 <= i < |s| && shows(s[i], x) && shows(s[i], y) ==> x == y
    ensures a == b
  {
    forall k | 0 <= k < |a|
      ensures a[k] == b[k]
    {
      NthKept(s, keep, k);
      var i :| 0 <= i < |s| && keep(s[i]) && Count(s[..i], keep) == k;
      assert shows(s[i], a[k]) && shows(s[i], b[k]);
    }
  }

  // ---- The first members of their kind ----

  predicate Equal<T(==)>(a: T, b: T) {
    a == b
  }

  /** Nothing before the i-th member is the same. */
  ghost predicate IsFirst<T>(s: seq<T>, same: (T, T) -> bool, i: nat) {
    i < |s| && forall j :: 0 <= j < i ==> !same(s[j], s[i])
  }

  /** `at` says where the members of `r` were: at every first place, and nowhere else, in order. */
  ghost predicate FirstsAt<T>(s: seq<T>, same: (T, T) -> bool, r: seq<T>, at: seq<nat>) {
    && |at| == |r|
    && (forall k :: 0 <= k < |at| ==> at[k] < |s| && r[k] == s[at[k]])
    && (forall k, l :: 0 <= k < l < |at| ==> at[k] < at[l])
    && forall i: nat :: i in at <==> IsFirst(s, same, i)
  }

  ghost predicate Firsts<T>(s: seq<T>, same: (T, T) -> bool, r: seq<T>) {
    exists at: seq<nat> :: FirstsAt(s, same, r, at)
  }

  lemma FirstsOfNone<T>(same: (T, T) -> bool)
    ensures Firsts([], same, [])
  {
    assert FirstsAt([], same, [], []);
  }

  lemma FirstsSnoc<T>(s: seq<T>, same: (T, T) -> bool, r: seq<T>, x: T)
    requires Firsts(s, same, r)
    ensures Firsts(s + [x], same, if IsFirst(s + [x], same, |s|) then r + [x] else r)
  {
    var n := |s|;
    var more := s + [x];
    var at: seq<nat> :| FirstsAt(s, same, r, at);
    forall i: nat
      ensures IsFirst(more, same, i) <==> IsFirst(s, same, i) || (i == n && IsFirst(more, same, n))
    {
      if i < n {
        assert forall j :: 0 <= j <= i ==> more[j] == s[j];
      }
    }
    if IsFirst(more, same, n) {
      assert forall i: nat :: i in at + [n] <==> i in at || i == n;
      assert FirstsAt(more, same, r + [x], at + [n]);
    } else {
      assert FirstsAt(more, same, r, at);
    }
  }

  lemma LastIsFirst<T>(s: seq<T>, same: (T, T) -> bool, x: T)
    ensures IsFirst(s + [x], same, |s|) <==> forall y :: y in s ==> !same(y, x)
  {
    var more := s + [x];
    assert more[|s|] == x && forall j :: 0 <= j < |s| ==> more[j] == s[j];
  }
}
