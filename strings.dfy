/**
 * The string and list operations the conversions are built from:
 * `''.join` over a list of strings, `str.index`, and
 * `more_itertools.chunked`, which cuts a string into consecutive pieces of
 * a fixed size.
 */
module Strings {

  import opened Arithmetic

  datatype Option<T> = None | Some(value: T)

  /** `s.index(c)`: the position of the first occurrence of `c`, or None where Python raises ValueError. */
  function IndexOf(s: string, c: char): (r: Option<nat>)
    ensures r.Some? ==> r.value < |s| && s[r.value] == c
    ensures r.None? <==> c !in s
  {
    if s == [] then None
    else if s[0] == c then Some(0)
    else match IndexOf(s[1..], c)
      case None => None
      case Some(i) => Some(i + 1)
  }

  /** The position `index` finds is the first occurrence. */
  lemma {:induction false} IndexOfFirst(s: string, c: char)
    requires IndexOf(s, c).Some?
    ensures forall j | 0 <= j < IndexOf(s, c).value :: s[j] != c
  {
    if s[0] != c {
      IndexOfFirst(s[1..], c);
      forall j | 0 <= j < IndexOf(s, c).value ensures s[j] != c {
        if j > 0 {
          assert s[j] == s[1..][j - 1];
        }
      }
    }
  }

  /** `''.join(parts)`: the parts concatenated in order. */
  function Join(parts: seq<string>): string
  {
    if parts == [] then [] else Join(parts[..|parts| - 1]) + parts[|parts| - 1]
  }

  lemma {:induction false} JoinAppend(p: seq<string>, q: seq<string>)
    ensures Join(p + q) == Join(p) + Join(q)
  {
    if q == [] {
      assert p + q == p;
    } else {
      JoinAppend(p, q[..|q| - 1]);
      assert (p + q)[..|p + q| - 1] == p + q[..|q| - 1];
    }
  }

  lemma JoinOne(x: string)
    ensures Join([x]) == x
  {
    assert [x][..0] == [];
  }

  lemma JoinTwo(x: string, y: string)
    ensures Join([x, y]) == x + y
  {
    assert [x, y][..1] == [x];
    JoinOne(x);
  }

  /** Joining parts that all have width `n` gives `n` characters per part. */
  lemma {:induction false} JoinUniformLength(parts: seq<string>, n: nat)
    requires forall i | 0 <= i < |parts| :: |parts[i]| == n
    ensures |Join(parts)| == n * |parts|
  {
    if parts != [] {
      JoinUniformLength(parts[..|parts| - 1], n);
      MulSucc(n, |parts| - 1);
    }
  }

  /** The characters of `s`, each as a one-character string, as iterating a Python string yields them. */
  function Singletons(s: string): (r: seq<string>)
    ensures |r| == |s|
    ensures forall i | 0 <= i < |s| :: r[i] == [s[i]]
  {
    seq(|s|, i requires 0 <= i < |s| => [s[i]])
  }

  /** Joining the characters of a string gives the string back. */
  lemma {:induction false} JoinSingletons(s: string)
    ensures Join(Singletons(s)) == s
  {
    if s != [] {
      var front := s[..|s| - 1];
      JoinSingletons(front);
      assert Singletons(s)[..|s| - 1] == Singletons(front);
    }
  }

  /** A joined string consists only of characters satisfying `p` exactly when every part does. */
  lemma {:induction false} JoinAll(parts: seq<string>, p: char -> bool)
    ensures (forall i | 0 <= i < |Join(parts)| :: p(Join(parts)[i]))
        <==> (forall k, i | 0 <= k < |parts| && 0 <= i < |parts[k]| :: p(parts[k][i]))
  {
    if parts != [] {
      var front, last := parts[..|parts| - 1], parts[|parts| - 1];
      var jf := Join(front);
      var j := jf + last;
      assert Join(parts) == j;
      JoinAll(front, p);
      if forall i | 0 <= i < |j| :: p(j[i]) {
        assert forall i | 0 <= i < |jf| :: p(jf[i]) by {
          forall i | 0 <= i < |jf| ensures p(jf[i]) {
            assert jf[i] == j[i];
          }
        }
        forall k, i | 0 <= k < |parts| && 0 <= i < |parts[k]| ensures p(parts[k][i]) {
          if k < |front| {
            assert parts[k] == front[k];
          } else {
            assert parts[k][i] == j[|jf| + i];
          }
        }
      }
      if forall k, i | 0 <= k < |parts| && 0 <= i < |parts[k]| :: p(parts[k][i]) {
        assert forall k, i | 0 <= k < |front| && 0 <= i < |front[k]| :: p(front[k][i]) by {
          forall k, i | 0 <= k < |front| && 0 <= i < |front[k]| ensures p(front[k][i]) {
            assert front[k] == parts[k];
          }
        }
        forall i | 0 <= i < |j| ensures p(j[i]) {
          if i >= |jf| {
            assert j[i] == parts[|parts| - 1][i - |jf|];
          }
        }
      }
    }
  }

  /**
   * `more_itertools.chunked(s, n)`: the consecutive pieces of `s` of `n`
   * characters each, the last one holding the remainder. Concatenating the
   * pieces gives `s` back, there are ceil(|s| / n) of them, none is empty
   * and all but the last have exactly `n` characters.
   */
  function Chunks(s: string, n: nat): (r: seq<string>)
    requires n >= 1
    ensures |r| == (|s| + n - 1) / n
    ensures forall i | 0 <= i < |r| :: 0 < |r[i]| <= n
    ensures forall i | 0 <= i < |r| - 1 :: |r[i]| == n
    decreases |s|
  {
    if s == [] then []
    else if |s| <= n then
      DivUnique(|s| + n - 1, n, 1, |s| - 1);
      [s]
    else
      DivStep(|s| - n + n - 1, n);
      [s[..n]] + Chunks(s[n..], n)
  }

  /** Concatenating the pieces gives the string back. */
  lemma {:induction false} ChunksJoin(s: string, n: nat)
    requires n >= 1
    ensures Join(Chunks(s, n)) == s
    decreases |s|
  {
    if s == [] {
    } else if |s| <= n {
      JoinOne(s);
    } else {
      ChunksJoin(s[n..], n);
      JoinAppend([s[..n]], Chunks(s[n..], n));
      JoinOne(s[..n]);
    }
  }

  /** A string of `m` whole chunks is cut into `m` pieces of exactly `n` characters. */
  lemma {:induction false} ChunksExact(s: string, n: nat, m: nat)
    requires n >= 1 && |s| == n * m
    ensures |Chunks(s, n)| == m
    ensures forall i | 0 <= i < m :: |Chunks(s, n)[i]| == n
    decreases m
  {
    if m == 0 {
      assert s == [];
    } else if |s| <= n {
      MulAtLeast(n, m);
      assert m == 1 by {
        if m > 1 { MulAtLeast(n, m - 1); MulSucc(n, m - 1); }
      }
    } else {
      MulSucc(n, m - 1);
      ChunksExact(s[n..], n, m - 1);
    }
  }

  /** Chunking a prefix of `k` whole chunks and the rest separately gives the same pieces. */
  lemma {:induction false} ChunksAppend(x: string, y: string, n: nat, k: nat)
    requires n >= 1 && |x| == n * k
    ensures Chunks(x + y, n) == Chunks(x, n) + Chunks(y, n)
  {
    if k == 0 {
      assert x + y == y;
    } else if |x + y| <= n {
      assert x + y == x;
    } else {
      assert (x + y)[..n] == x[..n];
      assert (x + y)[n..] == x[n..] + y;
      ChunksAppend(x[n..], y, n, k - 1);
      if |x| <= n {
        assert x[n..] == [];
      }
    }
  }

  /**
   * Chunking the concatenation of pieces of width `n` (the last may be
   * shorter, none empty) recovers the pieces.
   */
  lemma {:induction false} ChunksOfJoin(parts: seq<string>, n: nat)
    requires n >= 1
    requires forall i | 0 <= i < |parts| :: 0 < |parts[i]| <= n
    requires forall i | 0 <= i < |parts| - 1 :: |parts[i]| == n
    ensures Chunks(Join(parts), n) == parts
  {
    if parts != [] {
      var front, last := parts[..|parts| - 1], parts[|parts| - 1];
      ChunksOfJoin(front, n);
      JoinUniformLength(front, n);
      ChunksAppend(Join(front), last, n, |front|);
      assert parts == front + [last];
    }
  }
}
