/** Go strings as the byte sequences they are. */
module Bytes {
  type byte = x: int | 0 <= x < 256

  type Bytes = seq<byte>

  /** Index of the first occurrence of c, or the length of s if there is none. */
  function IndexOf<T(==)>(s: seq<T>, c: T): (i: nat)
    ensures i <= |s|
    ensures c !in s[..i]
    ensures i < |s| ==> s[i] == c
  {
    if s == [] || s[0] == c then 0 else 1 + IndexOf(s[1..], c)
  }

  /** Any split around a c-free front finds its index. */
  lemma {:induction false} IndexOfSplit<T>(front: seq<T>, c: T, rest: seq<T>)
    requires c !in front
    ensures IndexOf(front + [c] + rest, c) == |front|
    ensures IndexOf(front, c) == |front|
  {
    if front != [] {
      IndexOfSplit(front[1..], c, rest);
      assert (front + [c] + rest)[1..] == front[1..] + [c] + rest;
    }
  }

  /** What comes after the first c does not move it. */
  lemma {:induction false} IndexOfPrefix<T>(s: seq<T>, c: T, more: seq<T>)
    requires c in s
    ensures IndexOf(s + more, c) == IndexOf(s, c)
    ensures (s + more)[..IndexOf(s, c)] == s[..IndexOf(s, c)]
  {
    if s[0] != c {
      IndexOfPrefix(s[1..], c, more);
      assert (s + more)[1..] == s[1..] + more;
    }
  }
}
