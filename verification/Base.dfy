/** Values shared by every module: failure types, Go's string order, an
    unstable in-place sort, and greatest elements of finite sets. */
module Base {

  datatype Option<+T> = None | Some(value: T)

  datatype Result<+T, +E> = Ok(value: T) | Err(error: E)

  /** Go's `<` on strings: byte order, which on UTF-8 text is the order of code points. */
  predicate StrLess(a: string, b: string) {
    b != [] && (a == [] || a[0] < b[0] || (a[0] == b[0] && StrLess(a[1..], b[1..])))
  }

  /** strings.Compare */
  function StrCompare(a: string, b: string): int {
    if a == b then 0 else if StrLess(a, b) then -1 else 1
  }

  lemma {:induction false} StrLessTrichotomy(a: string, b: string)
    ensures StrLess(a, b) || a == b || StrLess(b, a)
    ensures !(StrLess(a, b) && StrLess(b, a))
    ensures a == b ==> !StrLess(a, b)
  {
    if a != [] && b != [] && a[0] == b[0] {
      StrLessTrichotomy(a[1..], b[1..]);
      assert a == [a[0]] + a[1..] && b == [b[0]] + b[1..];
    }
  }

  lemma {:induction false} StrLessTransitive(a: string, b: string, c: string)
    requires StrLess(a, b) && StrLess(b, c)
    ensures StrLess(a, c)
  {
    if a != [] && a[0] == b[0] && b[0] == c[0] {
      StrLessTransitive(a[1..], b[1..], c[1..]);
    }
  }

  /** The texts agree up to n, where a ends or has the smaller character. */
  predicate LessAt(a: string, b: string, n: nat) {
    n <= |a| && n < |b| && a[..n] == b[..n] && (n == |a| || a[n] < b[n])
  }

  /** A text is less than another if and only if it is a proper prefix of it or
      has the smaller character where they first differ. */
  lemma {:induction false} StrLessSays(a: string, b: string)
    ensures StrLess(a, b) <==> exists n: nat :: LessAt(a, b, n)
  {
    if a == [] || b == [] || a[0] != b[0] {
      assert LessAt(a, b, 0) <==> StrLess(a, b);
      assert forall n: nat :: n > 0 && LessAt(a, b, n) ==> a[..n][0] == b[..n][0];
    } else {
      StrLessSays(a[1..], b[1..]);
      if n: nat :| LessAt(a, b, n) {
        LessAtTail(a, b, n - 1);
      }
      if n: nat :| LessAt(a[1..], b[1..], n) {
        LessAtTail(a, b, n);
        assert LessAt(a, b, n + 1);
      }
    }
  }

  lemma LessAtTail(a: string, b: string, n: nat)
    requires a != [] && b != [] && a[0] == b[0]
    ensures LessAt(a, b, n + 1) <==> LessAt(a[1..], b[1..], n)
  {
    if n < |a| && n < |b| {
      assert a[..n + 1] == [a[0]] + a[1..][..n] && b[..n + 1] == [b[0]] + b[1..][..n];
    }
  }

  predicate StrGreater(a: string, b: string) {
    StrLess(b, a)
  }

  lemma StrLessOrdered()
    ensures StrictWeakOrder(StrLess)
    ensures StrictWeakOrder(StrGreater)
  {
    forall x: string, y: string ensures StrLess(x, y) ==> !StrLess(y, x) {
      StrLessTrichotomy(x, y);
    }
    forall x: string, y: string, z: string | !StrLess(x, y) && !StrLess(y, z) ensures !StrLess(x, z) {
      StrLessTrichotomy(x, y);
      StrLessTrichotomy(y, z);
      StrLessTrichotomy(x, z);
      if StrLess(x, z) && x != y && y != z {
        StrLessTransitive(z, y, x);
      }
    }
  }

  ghost function Elements<T>(s: seq<T>): set<T> {
    set x | x in s
  }

  ghost predicate Distinct<T(!new)>(s: seq<T>) {
    forall i, j :: 0 <= i < j < |s| ==> s[i] != s[j]
  }

  lemma {:induction false} DistinctCounts<T(!new)>(s: seq<T>)
    requires Distinct(s)
    ensures forall x :: multiset(s)[x] <= 1
  {
    if s != [] {
      var init, last := s[..|s| - 1], s[|s| - 1];
      DistinctCounts(init);
      assert s == init + [last];
      assert last !in init;
      assert multiset(init)[last] == 0;
    }
  }

  /** Sorting keeps distinct elements distinct. */
  lemma DistinctPermutes<T(!new)>(s: seq<T>, t: seq<T>)
    requires Distinct(s) && multiset(s) == multiset(t)
    ensures Distinct(t)
  {
    DistinctCounts(s);
    forall i, j | 0 <= i < j < |t| ensures t[i] != t[j] {
      var front, back := t[..j], t[j..];
      assert t == front + back;
      assert t[i] in multiset(front) && t[j] in multiset(back);
      assert multiset(t)[t[j]] == multiset(front)[t[j]] + multiset(back)[t[j]];
      assert multiset(t)[t[j]] <= 1;
    }
  }

  lemma ElementsAppend<T>(s: seq<T>, x: T)
    ensures Elements(s + [x]) == Elements(s) + {x}
  {
  }

  lemma {:induction false} DistinctSize<T(!new)>(s: seq<T>)
    requires Distinct(s)
    ensures |Elements(s)| == |s|
  {
    if s != [] {
      var init, last := s[..|s| - 1], s[|s| - 1];
      DistinctSize(init);
      assert s == init + [last] && last !in init;
      ElementsAppend(init, last);
    }
  }

  lemma PermutationElements<T>(s: seq<T>, t: seq<T>)
    requires multiset(s) == multiset(t)
    ensures Elements(s) == Elements(t)
    ensures |s| == |t|
  {
    assert |multiset(s)| == |multiset(t)|;
    forall x ensures x in s <==> x in t {
      assert x in s <==> x in multiset(s);
      assert x in t <==> x in multiset(t);
    }
  }

  ghost function Without<T>(s: seq<T>, j: nat): seq<T>
    requires j < |s|
  {
    s[..j] + s[j + 1..]
  }

  lemma RemoveAt<T>(s: seq<T>, j: nat)
    requires j < |s|
    ensures multiset(s) == multiset(Without(s, j)) + multiset{s[j]}
    ensures multiset(Without(s, j)) == multiset(s) - multiset{s[j]}
  {
    assert s == s[..j] + [s[j]] + s[j + 1..];
  }

  ghost predicate Mapped<A, B>(s: seq<A>, t: seq<B>, f: A -> B) {
    |t| == |s| && forall i :: 0 <= i < |s| ==> t[i] == f(s[i])
  }

  lemma MappedWithout<A, B>(s: seq<A>, t: seq<B>, f: A -> B, j: nat)
    requires Mapped(s, t, f) && j < |s|
    ensures Mapped(Without(s, j), Without(t, j), f)
  {
  }

  /** Mapping a function over a permutation gives a permutation. */
  lemma {:induction false} MapPermutes<A, B>(s: seq<A>, s': seq<A>, t: seq<B>, t': seq<B>, f: A -> B)
    requires multiset(s) == multiset(s') && Mapped(s, t, f) && Mapped(s', t', f)
    ensures multiset(t) == multiset(t')
    decreases |s|
  {
    PermutationElements(s, s');
    if s != [] {
      assert s[0] in Elements(s');
      var j :| 0 <= j < |s'| && s'[j] == s[0];
      RemoveAt(s, 0);
      RemoveAt(t, 0);
      RemoveAt(s', j);
      RemoveAt(t', j);
      MappedWithout(s, t, f, 0);
      MappedWithout(s', t', f, j);
      MapPermutes(Without(s, 0), Without(s', j), Without(t, 0), Without(t', j), f);
    }
  }

  lemma UpdatedMap<K, V>(m: map<K, V>, m': map<K, V>, k: K)
    requires k in m' && m'.Keys == m.Keys + {k} && forall x :: x in m && x != k ==> m'[x] == m[x]
    ensures m' == m[k := m'[k]]
  {
  }

  /** What sort.Slice asks of its comparison. */
  ghost predicate StrictWeakOrder<T(!new)>(less: (T, T) -> bool) {
    && (forall x, y :: less(x, y) ==> !less(y, x))
    && (forall x, y, z :: !less(x, y) && !less(y, z) ==> !less(x, z))
  }

  ghost predicate SortedBy<T>(s: seq<T>, less: (T, T) -> bool) {
    forall i, j :: 0 <= i < j < |s| ==> !less(s[j], s[i])
  }

  /** sort.Slice: in place, and no promise about elements the comparison ties. */
  method SortSlice<T(!new)>(a: array<T>, less: (T, T) -> bool)
    requires StrictWeakOrder(less)
    modifies a
    ensures SortedBy(a[..], less)
    ensures multiset(a[..]) == multiset(old(a[..]))
  {
    var i := 0;
    while i < a.Length
      invariant 0 <= i <= a.Length
      invariant SortedBy(a[..i], less)
      invariant multiset(a[..]) == multiset(old(a[..]))
    {
      var j := i;
      while j > 0 && less(a[j], a[j - 1])
        invariant 0 <= j <= i
        invariant forall p, q :: 0 <= p < q <= i && q != j ==> !less(a[q], a[p])
        invariant multiset(a[..]) == multiset(old(a[..]))
      {
        a[j - 1], a[j] := a[j], a[j - 1];
        j := j - 1;
      }
      i := i + 1;
    }
    assert a[..i] == a[..];
  }

  ghost predicate IsMaximal<T>(s: set<T>, less: (T, T) -> bool, m: T) {
    m in s && forall x :: x in s ==> !less(m, x)
  }

  /** A finite non-empty set has an element below no other. */
  lemma {:induction false} MaximalExists<T(!new)>(s: set<T>, less: (T, T) -> bool)
    requires s != {} && StrictWeakOrder(less)
    ensures exists m :: IsMaximal(s, less, m)
  {
    var e :| e in s;
    var rest := s - {e};
    assert s == rest + {e};
    if rest == {} {
      assert IsMaximal(s, less, e);
    } else {
      MaximalExists(rest, less);
      var m :| IsMaximal(rest, less, m);
      m := MaximalExtends(rest, m, e, less);
    }
  }

  lemma MaximalExtends<T(!new)>(s: set<T>, m: T, e: T, less: (T, T) -> bool) returns (g: T)
    requires StrictWeakOrder(less) && IsMaximal(s, less, m) && !less(e, e)
    ensures IsMaximal(s + {e}, less, g)
  {
    if less(m, e) {
      g := e;
      forall x | x in s ensures !less(e, x) {
        assert !less(e, m) && !less(m, x);
      }
    } else {
      g := m;
    }
  }

  /** Splitting at the first separator is unambiguous. */
  lemma {:induction false} SplitAtFirst(a: string, b: string, a': string, b': string, sep: char)
    requires a + [sep] + b == a' + [sep] + b'
    requires sep !in a && sep !in a'
    ensures a == a' && b == b'
  {
    var s, s' := a + [sep] + b, a' + [sep] + b';
    assert s[|a|] == sep && s'[|a'|] == sep;
    assert |a| == |a'| by {
      assert forall i :: 0 <= i < |a| ==> s[i] == a[i];
      assert forall i :: 0 <= i < |a'| ==> s'[i] == a'[i];
    }
    assert s[..|a|] == a && s'[..|a'|] == a';
    assert s[|a| + 1..] == b && s'[|a'| + 1..] == b';
  }

  /** Splitting at the last separator is unambiguous. */
  lemma {:induction false} SplitAtLast(a: string, b: string, a': string, b': string, sep: char)
    requires a + [sep] + b == a' + [sep] + b'
    requires sep !in b && sep !in b'
    ensures a == a' && b == b'
  {
    var s, s' := a + [sep] + b, a' + [sep] + b';
    assert s[|a|] == sep && s'[|a'|] == sep;
    assert |a| == |a'| by {
      assert forall i :: |a| < i < |s| ==> s[i] == b[i - |a| - 1];
      assert forall i :: |a'| < i < |s'| ==> s'[i] == b'[i - |a'| - 1];
    }
    assert s[..|a|] == a && s'[..|a'|] == a';
    assert s[|a| + 1..] == b && s'[|a'| + 1..] == b';
  }
}
