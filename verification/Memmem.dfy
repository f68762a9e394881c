/** memmem of lib/string.c: the "Not So Naive" search, with memcmp. */
module Memmem {
  type Byte = x: int | 0 <= x < 256

  /** The needle occurs in the haystack at j. */
  ghost predicate OccursAt(y: seq<Byte>, x: seq<Byte>, j: int) {
    0 <= j && j + |x| <= |y| && y[j..j + |x|] == x
  }

  /** Nothing occurs before j. */
  ghost predicate NoneBefore(y: seq<Byte>, x: seq<Byte>, j: int) {
    forall i {:trigger OccursAt(y, x, i)} :: 0 <= i < j ==> !OccursAt(y, x, i)
  }

  /** a and b agree before k and differ by d there. */
  ghost predicate FirstDifference(a: seq<Byte>, b: seq<Byte>, k: int, d: int) {
    0 <= k < |a| && k < |b| && a[..k] == b[..k] && d == a[k] as int - b[k] as int && d != 0
  }

  /** memcmp(s1 + i, s2 + j, n): the difference at the first byte that differs. */
  method Memcmp(s1: array<Byte>, i: nat, s2: array<Byte>, j: nat, n: nat) returns (d: int, ghost k: int)
    requires i + n <= s1.Length && j + n <= s2.Length
    ensures d == 0 <==> s1[i..i + n] == s2[j..j + n]
    ensures d != 0 ==> FirstDifference(s1[i..i + n], s2[j..j + n], k, d)
  {
    d, k := 0, 0;
    var c := 0;
    while c < n
      invariant 0 <= c == k <= n && d == 0 && s1[i..i + k] == s2[j..j + k]
    {
      d := s1[i + c] as int - s2[j + c] as int;
      if d != 0 {
        assert s1[i..i + n][k] != s2[j..j + n][k];
        assert s1[i..i + n][..k] == s1[i..i + k] && s2[j..j + n][..k] == s2[j..j + k];
        assert FirstDifference(s1[i..i + n], s2[j..j + n], k, d);
        return;
      }
      assert s1[i..i + k + 1] == s1[i..i + k] + [s1[i + k]];
      assert s2[j..j + k + 1] == s2[j..j + k] + [s2[j + k]];
      c := c + 1;
      k := c;
    }
  }

  lemma ByteOf(y: seq<Byte>, x: seq<Byte>, i: int, t: int)
    requires 0 <= t < |x| && 0 <= i + t < |y|
    ensures OccursAt(y, x, i) ==> y[i + t] == x[t]
  {
  }

  /** A mismatch of the second byte rules out this place and, when the needle
      starts with a pair of equal bytes, the next one too. */
  lemma SkipMismatch(y: seq<Byte>, x: seq<Byte>, j: int, k: int)
    requires 2 <= |x| && 0 <= j && j + |x| <= |y| && x[1] != y[j + 1]
    requires k == if x[0] == x[1] then 2 else 1
    ensures forall i {:trigger OccursAt(y, x, i)} :: j <= i < j + k ==> !OccursAt(y, x, i)
  {
    forall i | j <= i < j + k
      ensures !OccursAt(y, x, i)
    {
      ByteOf(y, x, i, j + 1 - i);
    }
  }

  /** A match of the second byte without an occurrence rules out this place and,
      when the needle starts with two different bytes, the next one too. */
  lemma SkipMatch(y: seq<Byte>, x: seq<Byte>, j: int, l: int)
    requires 2 <= |x| && 0 <= j && j + |x| <= |y| && x[1] == y[j + 1] && !OccursAt(y, x, j)
    requires l == if x[0] == x[1] then 1 else 2
    ensures forall i {:trigger OccursAt(y, x, i)} :: j <= i < j + l ==> !OccursAt(y, x, i)
  {
    forall i | j <= i < j + l
      ensures !OccursAt(y, x, i)
    {
      if i == j + 1 { ByteOf(y, x, i, 0); }
    }
  }

  /** memmem(haystack, n, needle, m): the first occurrence, or -1 for NULL. */
  method Find(y: array<Byte>, n: nat, x: array<Byte>, m: nat) returns (at: int)
    requires n <= y.Length && m <= x.Length
    ensures at == -1 <==> m == 0 || forall i {:trigger OccursAt(y[..n], x[..m], i)} :: !OccursAt(y[..n], x[..m], i)
    ensures at != -1 ==> OccursAt(y[..n], x[..m], at) && NoneBefore(y[..n], x[..m], at)
  {
    ghost var Y, X := y[..n], x[..m];
    if m > n || m == 0 || n == 0 { return -1; }
    if 1 != m {
      at := FindLong(y, n, x, m);
    } else {
      at := FindByte(y, n, x);
    }
  }

  /** The search proper, for needles of two bytes and more. */
  method FindLong(y: array<Byte>, n: nat, x: array<Byte>, m: nat) returns (at: int)
    requires 2 <= m <= n <= y.Length && m <= x.Length
    ensures at == -1 <==> forall i {:trigger OccursAt(y[..n], x[..m], i)} :: !OccursAt(y[..n], x[..m], i)
    ensures at != -1 ==> OccursAt(y[..n], x[..m], at) && NoneBefore(y[..n], x[..m], at)
  {
    ghost var hay, needle := y[..n], x[..m];
    var k, l;
    if x[0] == x[1] { k, l := 2, 1; } else { k, l := 1, 2; }
    var j := 0;
    while j <= n - m
      invariant 0 <= j <= n - m + 2 && NoneBefore(hay, needle, j)
      decreases n - j
    {
      if x[1] != y[j + 1] {
        SkipMismatch(hay, needle, j, k);
        j := j + k;
      } else {
        var d, _ := Memcmp(x, 2, y, j + 2, m - 2);
        Compared(y, n, x, m, j);
        if d == 0 && x[0] == y[j] { return j; }
        SkipMatch(hay, needle, j, l);
        j := j + l;
      }
    }
    return -1;
  }

  /** The three comparisons together decide an occurrence. */
  lemma Compared(y: array<Byte>, n: nat, x: array<Byte>, m: nat, j: nat)
    requires 2 <= m && j + m <= n <= y.Length && m <= x.Length
    ensures OccursAt(y[..n], x[..m], j) <==> x[0] == y[j] && x[1] == y[j + 1] && x[2..m] == y[j + 2..j + m]
  {
    var hay, needle := y[..n], x[..m];
    assert hay[j..j + m] == [y[j], y[j + 1]] + y[j + 2..j + m];
    assert needle == [x[0], x[1]] + x[2..m];
  }

  /** A one-byte needle is searched byte by byte. */
  method FindByte(y: array<Byte>, n: nat, x: array<Byte>) returns (at: int)
    requires 1 <= n <= y.Length && 1 <= x.Length
    ensures at == -1 <==> forall i {:trigger OccursAt(y[..n], x[..1], i)} :: !OccursAt(y[..n], x[..1], i)
    ensures at != -1 ==> OccursAt(y[..n], x[..1], at) && NoneBefore(y[..n], x[..1], at)
  {
    ghost var hay, needle := y[..n], x[..1];
    var i, left := 0, n;
    while true
      invariant 0 <= i < n && i + left == n && NoneBefore(hay, needle, i)
      decreases left
    {
      assert hay[i..i + 1] == [y[i]] && needle == [x[0]];
      assert OccursAt(hay, needle, i) <==> y[i] == x[0];
      if y[i] == x[0] { return i; }
      i := i + 1;
      left := left - 1;
      if left == 0 { break; }
    }
    return -1;
  }
}
