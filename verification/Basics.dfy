/** Values and sequence facts shared by every model. */
module Basics {

  datatype Option<+T> = None | Some(value: T)

  datatype Result<+T, +E> = Ok(value: T) | Err(error: E)

  /** What a reader makes of the front of a text: a value and the text behind it. */
  datatype Read<+T> = Malformed | Got(value: T, rest: string)

  function Filter<T>(keep: T -> bool, s: seq<T>): (r: seq<T>)
  {
    if s == [] then []
    else if keep(s[0]) then [s[0]] + Filter(keep, s[1..])
    else Filter(keep, s[1..])
  }

  lemma {:induction false} FilterMembers<T>(keep: T -> bool, s: seq<T>)
    ensures forall x :: x in Filter(keep, s) <==> x in s && keep(x)
  {
    if s != [] {
      FilterMembers(keep, s[1..]);
      assert forall x :: x in s <==> x == s[0] || x in s[1..];
    }
  }

  lemma {:induction false} FilterFits<T>(keep: T -> bool, s: seq<T>)
    ensures |Filter(keep, s)| <= |s|
  {
    if s != [] { FilterFits(keep, s[1..]); }
  }

  lemma {:induction false} FilterConcat<T>(keep: T -> bool, s: seq<T>, t: seq<T>)
    ensures Filter(keep, s + t) == Filter(keep, s) + Filter(keep, t)
  {
    if s == [] {
      assert s + t == t;
    } else {
      assert (s + t)[1..] == s[1..] + t;
      FilterConcat(keep, s[1..], t);
    }
  }

  lemma {:induction false} FilterAll<T>(keep: T -> bool, s: seq<T>)
    requires forall x :: x in s ==> keep(x)
    ensures Filter(keep, s) == s
  {
    if s != [] { FilterAll(keep, s[1..]); }
  }

  lemma {:induction false} FilterNone<T>(keep: T -> bool, s: seq<T>)
    requires forall x :: x in s ==> !keep(x)
    ensures Filter(keep, s) == []
  {
    if s != [] { FilterNone(keep, s[1..]); }
  }

  function Both<T>(p: T -> bool, q: T -> bool): T -> bool
  {
    x => p(x) && q(x)
  }

  lemma {:induction false} FilterTwice<T>(p: T -> bool, q: T -> bool, s: seq<T>)
    ensures Filter(q, Filter(p, s)) == Filter(Both(p, q), s)
  {
    if s != [] {
      FilterTwice(p, q, s[1..]);
      if p(s[0]) {
        assert ([s[0]] + Filter(p, s[1..]))[1..] == Filter(p, s[1..]);
      }
    }
  }

  lemma {:induction false} FilterAgrees<T>(p: T -> bool, q: T -> bool, s: seq<T>)
    requires forall x :: x in s ==> p(x) == q(x)
    ensures Filter(p, s) == Filter(q, s)
  {
    if s != [] { FilterAgrees(p, q, s[1..]); }
  }

  lemma FiltersCommute<T>(p: T -> bool, q: T -> bool, s: seq<T>)
    ensures Filter(q, Filter(p, s)) == Filter(p, Filter(q, s))
  {
    FilterTwice(p, q, s);
    FilterTwice(q, p, s);
    FilterAgrees(Both(p, q), Both(q, p), s);
  }

  function Map<T, U>(f: T -> U, s: seq<T>): (r: seq<U>)
    ensures |r| == |s|
    ensures forall i :: 0 <= i < |s| ==> r[i] == f(s[i])
  {
    if s == [] then [] else [f(s[0])] + Map(f, s[1..])
  }

  lemma MapConcat<T, U>(f: T -> U, s: seq<T>, t: seq<T>)
    ensures Map(f, s + t) == Map(f, s) + Map(f, t)
  {
  }

  /** Filtering commutes with a map that leaves the filter's answer alone. */
  lemma {:induction false} FilterMap<T>(keep: T -> bool, f: T -> T, s: seq<T>)
    requires forall x :: keep(f(x)) == keep(x)
    ensures Filter(keep, Map(f, s)) == Map(f, Filter(keep, s))
  {
    if s != [] {
      FilterMap(keep, f, s[1..]);
      assert Map(f, s)[1..] == Map(f, s[1..]);
      if keep(s[0]) {
        assert ([s[0]] + Filter(keep, s[1..]))[1..] == Filter(keep, s[1..]);
      }
    }
  }

  /** `findIndex`; the length when there is none. */
  function IndexWhere<T>(p: T -> bool, s: seq<T>): (i: nat)
    ensures i <= |s|
    ensures i < |s| ==> p(s[i])
    ensures forall j :: 0 <= j < i ==> !p(s[j])
  {
    if s == [] || p(s[0]) then 0
    else
      var i := IndexWhere(p, s[1..]);
      assert forall j :: 1 <= j < i + 1 ==> s[j] == s[1..][j - 1];
      i + 1
  }

  /** The last element, as `at(-1)` reads it. */
  function Last<T>(s: seq<T>): Option<T>
  {
    if s == [] then None else Some(s[|s| - 1])
  }

  /** The numbers below `n` where `at` holds, in order. */
  function Positions(at: nat -> bool, n: nat): seq<nat>
  {
    if n == 0 then []
    else if at(n - 1) then Positions(at, n - 1) + [n - 1]
    else Positions(at, n - 1)
  }

  lemma {:induction false} PositionsExact(at: nat -> bool, n: nat)
    ensures forall i: nat :: i in Positions(at, n) <==> i < n && at(i)
    ensures forall i, j :: 0 <= i < j < |Positions(at, n)| ==> Positions(at, n)[i] < Positions(at, n)[j]
  {
    if n > 0 {
      var ps := Positions(at, n - 1);
      PositionsExact(at, n - 1);
      forall k | 0 <= k < |ps| ensures ps[k] < n - 1 { assert ps[k] in ps; }
    }
  }

  ghost predicate Distinct<T>(s: seq<T>)
  {
    forall i, j :: 0 <= i < j < |s| ==> s[i] != s[j]
  }

  lemma {:induction false} DistinctMultiplicity<T>(s: seq<T>, x: T)
    requires Distinct(s)
    ensures multiset(s)[x] <= 1
  {
    if s != [] {
      DistinctMultiplicity(s[1..], x);
      assert s == [s[0]] + s[1..];
      if x == s[0] { assert x !in s[1..]; }
    }
  }

  lemma RepeatedElement<T>(s: seq<T>, i: nat, j: nat)
    requires i < j < |s| && s[i] == s[j]
    ensures multiset(s)[s[i]] >= 2
  {
    assert s == s[..i] + [s[i]] + s[i + 1..j] + [s[j]] + s[j + 1..];
  }

  /** Distinct elements drawn from a sequence are no more than its elements. */
  lemma DistinctFits<T>(d: seq<T>, s: seq<T>)
    requires Distinct(d) && forall i :: 0 <= i < |d| ==> d[i] in s
    ensures |d| <= |s|
  {
    forall x ensures multiset(d)[x] <= multiset(s)[x] {
      DistinctMultiplicity(d, x);
      if x in multiset(d) {
        var i :| 0 <= i < |d| && d[i] == x;
        assert x in s;
      }
    }
    assert multiset(d) <= multiset(s);
    assert multiset(s) == multiset(d) + (multiset(s) - multiset(d));
    assert |multiset(d)| == |d| && |multiset(s)| == |s|;
  }

  lemma {:induction false} FilterKeepsDistinct<T>(keep: T -> bool, s: seq<T>)
    requires Distinct(s)
    ensures Distinct(Filter(keep, s))
  {
    if s != [] {
      FilterKeepsDistinct(keep, s[1..]);
      FilterMembers(keep, s[1..]);
    }
  }
}

/** Strings in code-point order: the one order used for ids and object keys. */
module Text {

  predicate Less(a: string, b: string)
  {
    b != "" && (a == "" || a[0] < b[0] || (a[0] == b[0] && Less(a[1..], b[1..])))
  }

  /** In order: the first character in which the two differ decides, and a proper prefix comes first. */
  lemma {:induction false} LessExactly(a: string, b: string)
    ensures Less(a, b) <==>
              exists k :: 0 <= k <= |a| && k < |b| && a[..k] == b[..k] && (k == |a| || a[k] < b[k])
  {
    if b != "" && a != "" {
      if a[0] == b[0] {
        LessExactly(a[1..], b[1..]);
        assert forall k :: 1 <= k <= |a| ==> a[..k] == [a[0]] + a[1..][..k - 1];
        assert forall k :: 1 <= k <= |b| ==> b[..k] == [b[0]] + b[1..][..k - 1];
        if k :| 0 <= k <= |a[1..]| && k < |b[1..]| && a[1..][..k] == b[1..][..k]
                && (k == |a[1..]| || a[1..][k] < b[1..][k]) {
          assert a[..k + 1] == b[..k + 1];
        }
        if k :| 0 <= k <= |a| && k < |b| && a[..k] == b[..k] && (k == |a| || a[k] < b[k]) {
          assert k > 0;
          assert a[1..][..k - 1] == a[..k][1..] == b[..k][1..] == b[1..][..k - 1];
        }
      } else if a[0] < b[0] {
        assert a[..0] == b[..0];
      } else {
        forall k | 0 < k <= |a| && k < |b| ensures a[..k] != b[..k] { assert a[..k][0] != b[..k][0]; }
      }
    } else if b != "" {
      assert a[..0] == b[..0];
    }
  }

  lemma {:induction false} LessIrreflexive(a: string)
    ensures !Less(a, a)
  {
    if a != "" { LessIrreflexive(a[1..]); }
  }

  lemma {:induction false} LessTransitive(a: string, b: string, c: string)
    requires Less(a, b) && Less(b, c)
    ensures Less(a, c)
  {
    if a != "" && a[0] == b[0] && b[0] == c[0] {
      LessTransitive(a[1..], b[1..], c[1..]);
    }
  }

  lemma {:induction false} LessTotal(a: string, b: string)
    ensures a == b || Less(a, b) || Less(b, a)
  {
    if a != "" && b != "" && a[0] == b[0] {
      LessTotal(a[1..], b[1..]);
      assert a == [a[0]] + a[1..] && b == [b[0]] + b[1..];
    }
  }

  lemma LessOrder()
    ensures forall a :: !Less(a, a)
    ensures forall a, b, c :: Less(a, b) && Less(b, c) ==> Less(a, c)
    ensures forall a, b :: a == b || Less(a, b) || Less(b, a)
  {
    forall a ensures !Less(a, a) { LessIrreflexive(a); }
    forall a, b, c | Less(a, b) && Less(b, c) ensures Less(a, c) { LessTransitive(a, b, c); }
    forall a, b ensures a == b || Less(a, b) || Less(b, a) { LessTotal(a, b); }
  }

  /** `parts.join(sep)`. */
  function Join(sep: char, parts: seq<string>): string
  {
    if parts == [] then ""
    else if |parts| == 1 then parts[0]
    else parts[0] + ([sep] + Join(sep, parts[1..]))
  }

  lemma JoinUnfold(sep: char, a: string, rest: seq<string>)
    requires rest != []
    ensures Join(sep, [a] + rest) == a + ([sep] + Join(sep, rest))
  {
    assert ([a] + rest)[1..] == rest;
  }

  predicate Free(c: char, s: string)
  {
    c !in s
  }

  /** White space and line ends of ECMAScript. */
  predicate WhiteSpace(c: char)
  {
    var code := c as int;
    9 <= code <= 13 || code == 32 || code == 0xA0 || code == 0x1680 || 0x2000 <= code <= 0x200A
    || code == 0x2028 || code == 0x2029 || code == 0x202F || code == 0x205F || code == 0x3000 || code == 0xFEFF
  }

  /** The twenty-five characters there are. */
  lemma WhiteSpaceIsExact(c: char)
    ensures WhiteSpace(c) <==>
              c as int in {0x9, 0xA, 0xB, 0xC, 0xD, 0x20, 0xA0, 0x1680, 0x2000, 0x2001, 0x2002, 0x2003, 0x2004, 0x2005,
                           0x2006, 0x2007, 0x2008, 0x2009, 0x200A, 0x2028, 0x2029, 0x202F, 0x205F, 0x3000, 0xFEFF}
  {
  }

  predicate Blank(s: string)
  {
    forall i :: 0 <= i < |s| ==> WhiteSpace(s[i])
  }

  /** `trim`. */
  function Trim(s: string): string
    decreases |s|
  {
    if s == "" then ""
    else if WhiteSpace(s[0]) then Trim(s[1..])
    else if WhiteSpace(s[|s| - 1]) then Trim(s[..|s| - 1])
    else s
  }

  /** Trimming leaves exactly the texts alone that neither start nor end in white space, and empties the blank ones. */
  lemma {:induction false} TrimIsExact(s: string)
    ensures Trim(s) == s <==> s == "" || !(WhiteSpace(s[0]) || WhiteSpace(s[|s| - 1]))
    ensures Trim(s) == "" <==> Blank(s)
    ensures |Trim(s)| <= |s|
    decreases |s|
  {
    if s != "" && WhiteSpace(s[0]) {
      TrimIsExact(s[1..]);
      assert s == [s[0]] + s[1..];
      assert Blank(s) <==> Blank(s[1..]) by {
        forall i | 0 <= i < |s| && Blank(s[1..]) ensures WhiteSpace(s[i]) { assert i > 0 ==> s[i] == s[1..][i - 1]; }
      }
    } else if s != "" && WhiteSpace(s[|s| - 1]) {
      TrimIsExact(s[..|s| - 1]);
      assert !Blank(s[..|s| - 1]) && !Blank(s) by { assert s[..|s| - 1][0] == s[0]; }
    }
  }

  /** What is trimmed off the two ends is white space. */
  lemma {:induction false} TrimTakesBlanks(s: string) returns (front: string, back: string)
    ensures s == front + Trim(s) + back && Blank(front) && Blank(back)
    decreases |s|
  {
    hide WhiteSpace;
    front, back := "", "";
    if s != "" && WhiteSpace(s[0]) {
      front, back := TrimTakesBlanks(s[1..]);
      front := OneMoreInFront(s, front, Trim(s[1..]), back);
    } else if s != "" && WhiteSpace(s[|s| - 1]) {
      front, back := TrimTakesBlanks(s[..|s| - 1]);
      back := OneMoreBehind(s, front, Trim(s[..|s| - 1]), back);
    }
  }

  lemma OneMoreInFront(s: string, front: string, t: string, back: string) returns (more: string)
    requires s != "" && WhiteSpace(s[0]) && s[1..] == front + t + back && Blank(front)
    ensures s == more + t + back && Blank(more)
  {
    hide WhiteSpace;
    more := [s[0]] + front;
    assert s == [s[0]] + (front + t + back);
  }

  lemma OneMoreBehind(s: string, front: string, t: string, back: string) returns (more: string)
    requires s != "" && WhiteSpace(s[|s| - 1]) && s[..|s| - 1] == front + t + back && Blank(back)
    ensures s == front + t + more && Blank(more)
  {
    hide WhiteSpace;
    more := back + [s[|s| - 1]];
    assert s == (front + t + back) + [s[|s| - 1]];
  }

  const DIGITS := "0123456789"

  /** Decimal text of a natural number, as `toString(10)` prints it. */
  function Decimal(n: nat): (r: string)
    ensures r != ""
    ensures forall c :: c in r ==> c in DIGITS
  {
    if n < 10 then [DIGITS[n]] else Decimal(n / 10) + [DIGITS[n % 10]]
  }

  /** The number a decimal text is read as. */
  function DecimalValue(s: string): int
  {
    if s == "" then 0 else 10 * DecimalValue(s[..|s| - 1]) + (s[|s| - 1] as int - '0' as int)
  }

  /** The text reads as the number and has no leading zero. */
  lemma {:induction false} DecimalIsRead(n: nat)
    ensures DecimalValue(Decimal(n)) == n
    ensures n > 0 ==> Decimal(n)[0] != '0'
  {
    assert forall d :: 0 <= d < 10 ==> DIGITS[d] as int == '0' as int + d;
    if n < 10 {
      assert [DIGITS[n]][..0] == "";
    } else {
      var front := Decimal(n / 10);
      assert (front + [DIGITS[n % 10]])[..|front|] == front;
      DecimalIsRead(n / 10);
    }
  }

  lemma DecimalInjective(m: nat, n: nat)
    requires Decimal(m) == Decimal(n)
    ensures m == n
  {
    DecimalIsRead(m);
    DecimalIsRead(n);
  }

  /** `cut` occurs in neither head, so the first `cut` ends both heads at the same place. */
  lemma {:induction false} SplitAtFirst(cut: char, a: string, b: string, x: string, y: string)
    requires Free(cut, a) && Free(cut, b)
    requires a + [cut] + x == b + [cut] + y
    ensures a == b && x == y
  {
    var u, v := a + [cut] + x, b + [cut] + y;
    assert u[|a|] == cut && v[|b|] == cut;
    assert forall i :: 0 <= i < |a| ==> u[i] == a[i];
    assert forall i :: 0 <= i < |b| ==> v[i] == b[i];
    assert |a| == |b|;
    assert a == u[..|a|] == b;
    assert x == u[|a| + 1..] == y;
  }

  // ----- Where a `|` stands in a joined text is settled by counting those on one side of it -----

  function Bars(s: string): nat
  {
    multiset(s)['|']
  }

  function TotalBars(parts: seq<string>): nat
  {
    if parts == [] then 0 else Bars(parts[0]) + TotalBars(parts[1..])
  }

  lemma {:induction false} JoinBars(parts: seq<string>)
    requires parts != []
    ensures Bars(Join('|', parts)) == TotalBars(parts) + |parts| - 1
  {
    if |parts| > 1 { JoinBars(parts[1..]); }
  }

  lemma {:induction false} JoinSplit(s: seq<string>, t: seq<string>)
    requires s != [] && t != []
    ensures Join('|', s + t) == Join('|', s) + (['|'] + Join('|', t))
  {
    assert s + t == [s[0]] + (s[1..] + t);
    JoinUnfold('|', s[0], s[1..] + t);
    if |s| > 1 {
      JoinSplit(s[1..], t);
      var a, b, c := s[0], Join('|', s[1..]), Join('|', t);
      assert a + (['|'] + (b + (['|'] + c))) == (a + (['|'] + b)) + (['|'] + c);
    } else {
      assert s[1..] + t == t;
    }
  }

  /** Behind equally many bars the two texts have been cut at the same place. */
  lemma CutFromRight(p: string, r: string, q: string, t: string)
    requires p + (['|'] + r) == q + (['|'] + t) && Bars(r) == Bars(t)
    ensures p == q && r == t
  {
    var u, v := p + (['|'] + r), q + (['|'] + t);
    if |r| < |t| {
      TailBars(u, p, r, t);
    } else if |t| < |r| {
      TailBars(v, q, t, r);
    }
    assert r == u[|u| - |r|..] == v[|v| - |t|..] == t;
    assert p == u[..|p|] == v[..|q|] == q;
  }

  lemma TailBars(u: string, p: string, r: string, t: string)
    requires u == p + (['|'] + r) && |r| < |t| <= |u| && t == u[|u| - |t|..]
    ensures Bars(t) > Bars(r)
  {
    var k := |t| - |r| - 1;
    assert t[k] == u[|p|] == '|';
    assert t == t[..k] + (['|'] + r);
  }

  /** In front of no fewer bars the second text has been cut at the same place, or further right. */
  lemma CutFromLeft(p: string, r: string, q: string, t: string) returns (z: string)
    requires p + (['|'] + r) == q + (['|'] + t) && Bars(p) <= Bars(q)
    ensures (p == q && r == t) || r == z + (['|'] + t)
  {
    var u, v := p + (['|'] + r), q + (['|'] + t);
    z := "";
    if |q| < |p| {
      HeadBars(p, r, q, t);
    } else if |p| < |q| {
      z := q[|p| + 1..];
      assert r == u[|p| + 1..] == v[|p| + 1..] == z + (['|'] + t);
    } else {
      assert p == u[..|p|] == v[..|q|] == q;
      assert r == u[|p| + 1..] == v[|q| + 1..] == t;
    }
  }

  lemma HeadBars(p: string, r: string, q: string, t: string)
    requires p + (['|'] + r) == q + (['|'] + t) && |q| < |p|
    ensures Bars(p) > Bars(q)
  {
    var u, v := p + (['|'] + r), q + (['|'] + t);
    assert p[|q|] == u[|q|] == v[|q|] == '|';
    assert p[..|q|] == u[..|q|] == v[..|q|] == q;
    assert p == q + (['|'] + p[|q| + 1..]);
  }

  lemma BarsOfThree(a: string, b: string, c: string)
    ensures Bars(Join('|', [a, b, c])) == Bars(a) + Bars(b) + Bars(c) + 2
  {
    JoinBars([a, b, c]);
    assert [a, b, c][1..] == [b, c] && [b, c][1..] == [c] && [c][1..] == [];
    assert TotalBars([b, c]) == Bars(b) + TotalBars([c]);
    assert TotalBars([c]) == Bars(c) + TotalBars([]);
  }

  lemma BarsOfFour(a: string, b: string, c: string, d: string)
    ensures Bars(Join('|', [a, b, c, d])) == Bars(a) + Bars(b) + Bars(c) + Bars(d) + 3
  {
    BarsOfThree(b, c, d);
    JoinSplit([a], [b, c, d]);
    assert [a] + [b, c, d] == [a, b, c, d];
  }

  lemma FreeMeansNoBars(s: string)
    ensures Free('|', s) <==> Bars(s) == 0
  {
  }

  lemma CutAtBar(s: string) returns (p: string, q: string)
    requires !Free('|', s)
    ensures s == p + (['|'] + q)
  {
    var k :| 0 <= k < |s| && s[k] == '|';
    p, q := s[..k], s[k + 1..];
  }
}
