/** Small facts about slices and concatenations of sequences that the
    decoding proofs use at each step. */
module Sequences {

  lemma AppendCons<T>(a: seq<T>, b: seq<T>)
    requires a != []
    ensures (a + b)[0] == a[0] && (a + b)[1..] == a[1..] + b
  {
  }

  lemma AppendSplit<T>(b: seq<T>, f: seq<T>, w: nat)
    requires w <= |b|
    ensures (b + f)[..w] == b[..w] && (b + f)[w..] == b[w..] + f
  {
  }

  lemma ConcatSlices<T>(a: seq<T>, b: seq<T>)
    ensures (a + b)[..|a|] == a && (a + b)[|a|..] == b
  {
  }

  lemma TailAt<T>(s: seq<T>, k: nat)
    requires 0 < k < |s|
    ensures s[1..][k - 1] == s[k]
  {
  }

  lemma DropSlice<T>(s: seq<T>, w: nat, o: nat, n: nat)
    requires w + o + n <= |s|
    ensures s[w..][o..o + n] == s[w + o..w + o + n]
  {
  }

  lemma TakeSplit<T>(s: seq<T>, w: nat, t: nat)
    requires w + t <= |s|
    ensures s[..w] + s[w..][..t] == s[..w + t]
  {
  }

  lemma PrefixSnoc<T>(s: seq<T>, k: nat)
    requires k < |s|
    ensures s[..k + 1] == s[..k] + [s[k]]
  {
  }

  lemma PrefixSplit<T>(s: seq<T>, a: nat, b: nat)
    requires a <= b <= |s|
    ensures s[..b] == s[..a] + s[a..b]
  {
  }

  lemma PrefixOfPrefix<T>(s: seq<T>, a: nat, b: nat)
    requires a <= b <= |s|
    ensures s[..b][..a] == s[..a]
  {
  }

  lemma TailOfPrefix<T>(s: seq<T>, k: nat)
    requires 0 < k <= |s|
    ensures s[..k][1..] == s[1..][..k - 1]
  {
  }

  lemma TakeDrop<T>(s: seq<T>, t: nat)
    requires t <= |s|
    ensures s[..t] + s[t..] == s
  {
  }

  lemma DropTake<T>(s: seq<T>, a: nat, w: nat)
    requires a + w <= |s|
    ensures s[a..][..w] == s[a..a + w]
  {
  }

  lemma DropDrop<T>(s: seq<T>, a: nat, w: nat)
    requires a + w <= |s|
    ensures s[a..][w..] == s[a + w..]
  {
  }

  /** Writing `x` just after a window `w` already written over `d` at `p`
      gives the window `w + x`. */
  lemma SpliceAppend<T>(d: seq<T>, p: nat, w: seq<T>, x: seq<T>)
    requires p + |w| + |x| <= |d|
    ensures var e := d[..p] + w + d[p + |w|..];
      e[..p + |w|] + x + e[p + |w| + |x|..] == d[..p] + (w + x) + d[p + |w + x|..]
  {
    var e := d[..p] + w + d[p + |w|..];
    assert e[..p + |w|] == d[..p] + w;
    assert e[p + |w| + |x|..] == d[p + |w| + |x|..];
  }
}
