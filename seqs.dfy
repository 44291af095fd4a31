/** Generic facts about sequences, stated once over an arbitrary element
    type so that the proofs about byte streams can use them without
    unfolding the encodings they are applied to. */
module Seqs {
  lemma SeqAssoc<T>(a: seq<T>, b: seq<T>, c: seq<T>)
    ensures (a + b) + c == a + (b + c)
  {
  }

  lemma AppendAssoc<T>(a: seq<T>, b: seq<T>, c: seq<T>, d: seq<T>, e: seq<T>)
    ensures a + b + c + d + e == a + (b + c + d + e)
  {
  }

  lemma AppendEmpty<T>(s: seq<T>)
    ensures s + [] == s && [] + s == s
  {
  }

  /** Taking the whole of a sequence gives it back. */
  lemma TakeAll<T>(s: seq<T>, k: nat)
    requires k == |s|
    ensures s[..k] == s
  {
  }

  lemma TakeTake<T>(s: seq<T>, i: nat, j: nat)
    requires i <= j <= |s|
    ensures s[..j][..i] == s[..i]
  {
  }

  lemma SliceOfTake<T>(s: seq<T>, lo: nat, hi: nat, k: nat)
    requires lo <= hi <= k <= |s|
    ensures s[..k][lo..hi] == s[lo..hi]
  {
  }

  /** The two halves of a concatenation are found back by slicing. */
  lemma AppendSplit<T>(a: seq<T>, b: seq<T>, k: nat, m: nat)
    requires k == |a| && m == |a| + |b|
    ensures (a + b)[..k] == a && (a + b)[k..m] == b
  {
  }

  lemma AppendParts<T>(a: seq<T>, b: seq<T>)
    ensures (a + b)[..|a|] == a && (a + b)[|a|..] == b
  {
  }

  lemma HeadTail<T>(s: seq<T>)
    requires |s| > 0
    ensures s == [s[0]] + s[1..]
  {
  }

  lemma ButLast<T>(s: seq<T>)
    requires |s| > 0
    ensures s == s[..|s| - 1] + [s[|s| - 1]]
  {
  }

  lemma DropOne<T>(s: seq<T>, j: nat)
    requires j < |s|
    ensures s[j..][1..] == s[j + 1..] && s[j..][0] == s[j]
  {
  }

  lemma TakeOneMore<T>(s: seq<T>, i: nat)
    requires i < |s|
    ensures s[..i + 1] == s[..i] + [s[i]]
  {
  }

  /** A slice that starts past the first part lies in the second. */
  lemma SliceOfSecond<T>(a: seq<T>, b: seq<T>, lo: nat, hi: nat)
    requires lo <= hi <= |b|
    ensures (a + b)[|a| + lo..|a| + hi] == b[lo..hi]
  {
  }

  /** A chunk past the first w elements of a + b is the chunk of b w
      elements earlier. */
  lemma ChunkAfterHead<T>(whole: seq<T>, head: seq<T>, rest: seq<T>, off: nat, w: nat, part: seq<T>)
    requires whole == head + rest && |head| == w <= off && off <= |rest|
    requires rest[off - w..off] == part
    ensures off + w <= |whole| && whole[off..off + w] == part
  {
    SliceOfSecond(head, rest, off - w, off);
  }
}
