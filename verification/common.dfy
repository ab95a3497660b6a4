/**
 Shared vocabulary for the scheduler model: an optional value (the
 `null`/`undefined` of the TypeScript code) and two facts about sequences
 that several components promise, "no duplicates" and "order-preserving
 subsequence".
 */
module Common {

  /** A value that may be missing. */
  datatype Option<+T> = None | Some(value: T)

  /** No element of `s` occurs twice. */
  ghost predicate NoDuplicates<T>(s: seq<T>)
  {
    forall i, j :: 0 <= i < j < |s| ==> s[i] != s[j]
  }

  /** `sub` is obtained from `s` by dropping elements, keeping the order of the rest. */
  ghost predicate IsSubsequence<T>(sub: seq<T>, s: seq<T>)
    decreases |s|
  {
    if |s| == 0 then |sub| == 0
    else
      (|sub| > 0 && sub[0] == s[0] && IsSubsequence(sub[1..], s[1..]))
      || IsSubsequence(sub, s[1..])
  }

  /** A subsequence is no longer than the sequence and draws its elements from it. */
  lemma {:induction false} SubsequenceBounds<T>(sub: seq<T>, s: seq<T>)
    requires IsSubsequence(sub, s)
    ensures |sub| <= |s|
    ensures forall x :: x in sub ==> x in s
    decreases |s|
  {
    if |s| == 0 {
    } else if |sub| > 0 && sub[0] == s[0] && IsSubsequence(sub[1..], s[1..]) {
      SubsequenceBounds(sub[1..], s[1..]);
      forall x | x in sub
        ensures x in s
      {
        if x != sub[0] {
          assert x in sub[1..];
        }
      }
    } else {
      SubsequenceBounds(sub, s[1..]);
    }
  }

  /** Every sequence is a subsequence of itself. */
  lemma {:induction false} SubsequenceReflexive<T>(s: seq<T>)
    ensures IsSubsequence(s, s)
    decreases |s|
  {
    if |s| > 0 {
      SubsequenceReflexive(s[1..]);
    }
  }

  /** The empty sequence is a subsequence of every sequence. */
  lemma {:induction false} EmptySubsequence<T>(s: seq<T>)
    ensures IsSubsequence([], s)
    decreases |s|
  {
    if |s| > 0 {
      EmptySubsequence(s[1..]);
    }
  }
}
