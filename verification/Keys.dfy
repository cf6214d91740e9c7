/** The order in which a std::map walks its keys. */
module Keys {
  import opened Bytes

  /** Byte by byte, as std::string compares. */
  predicate Before(a: ByteString, b: ByteString)
    decreases |b|
  {
    b != [] && (a == [] || a[0] < b[0] || (a[0] == b[0] && Before(a[1..], b[1..])))
  }

  lemma {:induction false} BeforeTotal(a: ByteString, b: ByteString)
    ensures a != b ==> Before(a, b) || Before(b, a)
    decreases |b|
  {
    if a != [] && b != [] && a[0] == b[0] {
      BeforeTotal(a[1..], b[1..]);
      assert a[1..] == b[1..] ==> a == [a[0]] + a[1..] == b;
    }
  }

  lemma {:induction false} BeforeOneWay(a: ByteString, b: ByteString)
    ensures !(Before(a, b) && Before(b, a))
    decreases |b|
  {
    if a != [] && b != [] {
      BeforeOneWay(a[1..], b[1..]);
    }
  }

  lemma {:induction false} BeforeTransitive(a: ByteString, b: ByteString, c: ByteString)
    requires Before(a, b) && Before(b, c)
    ensures Before(a, c)
    decreases |b|
  {
    if a != [] && a[0] == b[0] == c[0] {
      BeforeTransitive(a[1..], b[1..], c[1..]);
    }
  }

  /** n comes first among s. */
  ghost predicate IsFirst(n: ByteString, s: set<ByteString>) {
    n in s && forall m | m in s && m != n :: Before(n, m)
  }

  lemma FirstUnique(m: ByteString, n: ByteString, s: set<ByteString>)
    requires IsFirst(m, s) && IsFirst(n, s)
    ensures m == n
  {
    BeforeOneWay(m, n);
  }

  lemma {:induction false} HasFirst(s: set<ByteString>)
    requires s != {}
    ensures exists n :: IsFirst(n, s)
    decreases s
  {
    var one :| one in s;
    var rest := s - {one};
    assert forall k | k in s :: k == one || k in rest;
    if rest == {} {
      assert IsFirst(one, s);
      return;
    }
    HasFirst(rest);
    var m :| IsFirst(m, rest);
    BeforeTotal(m, one);
    if Before(m, one) {
      assert IsFirst(m, s);
    } else {
      forall k | k in rest ensures Before(one, k) {
        if k != m {
          BeforeTransitive(one, m, k);
        }
      }
      assert IsFirst(one, s);
    }
  }

  /** The first key of a map with these keys. */
  ghost function FirstOf(s: set<ByteString>): (n: ByteString)
    requires s != {}
    ensures IsFirst(n, s)
  {
    HasFirst(s);
    var n :| IsFirst(n, s);
    n
  }

  /** begin() of a map with these keys. */
  method First(s: set<ByteString>) returns (n: ByteString)
    requires s != {}
    ensures IsFirst(n, s)
  {
    n :| n in s;
    var todo := s - {n};
    while todo != {}
      invariant todo <= s && n in s - todo && forall m | m in s - todo && m != n :: Before(n, m)
    {
      var m :| m in todo;
      todo := todo - {m};
      BeforeTotal(n, m);
      if Before(m, n) {
        forall k | k in s - todo && k != m ensures Before(m, k) {
          if k != n {
            BeforeTransitive(m, n, k);
          }
        }
        n := m;
      }
    }
  }
}
