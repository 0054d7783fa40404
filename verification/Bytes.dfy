/** Go strings are byte strings: paths, object keys and object bodies are all
    sequences of bytes. This module fixes that representation, the byte order
    that both Go's `<` on strings and S3 listings use, and the result types. */
module Bytes {

  type Byte = b: int | 0 <= b < 256

  type Bytes = seq<Byte>

  const SLASH: Byte := 47
  const DOT: Byte := 46

  /** The largest 64-bit integer; Go's int has 64 bits too. */
  const MAX_INT64: int := 0x7FFF_FFFF_FFFF_FFFF

  datatype Option<+T> = None | Some(value: T)

  /** The error kinds the file system distinguishes; texts and paths are dropped. */
  datatype Error =
    | NotExist
    | Exist
    | IsDirectory
    | NotDirectory
    | NotEmpty
    | Invalid
    | AccessDenied
    | ReadOnly
    | Closed
    | NoSuchKey
    | Service

  datatype Result<+T> = Ok(value: T) | Err(error: Error)

  /** Strict lexicographic byte order. */
  predicate Below(a: Bytes, b: Bytes) {
    b != [] && (a == [] || a[0] < b[0] || (a[0] == b[0] && Below(a[1..], b[1..])))
  }

  /** The order told without recursion: at the first place where the strings differ,
      the smaller one has ended or has the smaller byte. */
  ghost predicate DiffersBelow(a: Bytes, b: Bytes, i: nat) {
    i <= |a| && i < |b| && a[..i] == b[..i] && (i == |a| || a[i] < b[i])
  }

  lemma {:induction false} BelowExactly(a: Bytes, b: Bytes)
    ensures Below(a, b) <==> exists i: nat :: DiffersBelow(a, b, i)
  {
    if a == [] || b == [] || a[0] != b[0] {
      assert b != [] && (a == [] || a[0] < b[0]) ==> DiffersBelow(a, b, 0);
    } else {
      var x, y := a[1..], b[1..];
      BelowExactly(x, y);
      if i: nat :| DiffersBelow(x, y, i) {
        assert a[..i + 1] == [a[0]] + x[..i] && b[..i + 1] == [b[0]] + y[..i];
        assert DiffersBelow(a, b, i + 1);
      }
      if i: nat :| DiffersBelow(a, b, i) {
        assert x[..i - 1] == a[..i][1..] && y[..i - 1] == b[..i][1..];
        assert DiffersBelow(x, y, i - 1);
      }
    }
  }

  lemma {:induction false} BelowIrreflexive(a: Bytes)
    ensures !Below(a, a)
  {
    if a != [] {
      BelowIrreflexive(a[1..]);
    }
  }

  lemma {:induction false} BelowTransitive(a: Bytes, b: Bytes, c: Bytes)
    requires Below(a, b) && Below(b, c)
    ensures Below(a, c)
  {
    if a != [] && a[0] == b[0] && b[0] == c[0] {
      BelowTransitive(a[1..], b[1..], c[1..]);
    }
  }

  lemma {:induction false} BelowTotal(a: Bytes, b: Bytes)
    ensures a == b || Below(a, b) || Below(b, a)
  {
    if a != [] && b != [] && a[0] == b[0] {
      BelowTotal(a[1..], b[1..]);
      assert a == [a[0]] + a[1..] && b == [b[0]] + b[1..];
    }
  }

  lemma BelowAsymmetric(a: Bytes, b: Bytes)
    requires Below(a, b)
    ensures a != b && !Below(b, a)
  {
    BelowIrreflexive(a);
    if Below(b, a) {
      BelowTransitive(a, b, a);
    }
  }

  predicate Least(m: Bytes, s: set<Bytes>) {
    m in s && forall x :: x in s ==> x == m || Below(m, x)
  }

  /** Every non-empty finite set of byte strings has a least element. */
  lemma {:induction false} LeastExists(s: set<Bytes>) returns (m: Bytes)
    requires s != {}
    ensures Least(m, s)
  {
    var x :| x in s;
    m := x;
    if s != {x} {
      var rest := s - {x};
      assert s == rest + {x};
      var y := LeastExists(rest);
      m := LeastAdd(rest, y, x);
    }
  }

  lemma LeastAdd(s: set<Bytes>, y: Bytes, x: Bytes) returns (m: Bytes)
    requires Least(y, s)
    ensures Least(m, s + {x})
  {
    BelowTotal(x, y);
    if Below(x, y) {
      m := x;
      forall z | z in s && z != y
        ensures Below(x, z)
      {
        BelowTransitive(x, y, z);
      }
    } else {
      m := y;
    }
  }

  /** Two prefixes of one string are comparable. */
  lemma PrefixesComparable(a: Bytes, b: Bytes, s: Bytes)
    ensures a <= s && b <= s ==> a <= b || b <= a
  {
    if a <= s && b <= s {
      assert a == s[..|a|] && b == s[..|b|];
      if |a| <= |b| {
        assert b[..|a|] == a;
      } else {
        assert a[..|b|] == b;
      }
    }
  }

  lemma PrefixTransitive(a: Bytes, b: Bytes, s: Bytes)
    ensures a <= b && b <= s ==> a <= s
  {
    if a <= b && b <= s {
      assert s[..|a|] == b[..|a|];
    }
  }

  lemma Associative(a: Bytes, b: Bytes, c: Bytes)
    ensures a + (b + c) == a + b + c
  {
  }
}
