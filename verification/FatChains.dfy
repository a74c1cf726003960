/**
 Cluster chains as paths in the allocation table: what a chain is, when the table as a whole is a
 forest of chains, and what linking and unlinking do to both.  Entry values are those get_fat reports:
 0 free, 1 invalid, 2..n-1 a link, n and above the end of a chain (n is the table's length).
 */
module FatChains {

  predicate IsCluster(fat: seq<nat>, c: nat) { 2 <= c < |fat| }

  predicate IsLink(fat: seq<nat>, c: nat)
    requires c < |fat|
  {
    2 <= fat[c] < |fat|
  }

  /** ch lists a whole chain: each entry names the next cluster, and the last one ends the chain. */
  ghost predicate IsChain(fat: seq<nat>, ch: seq<nat>) {
    && |ch| > 0
    && (forall i | 0 <= i < |ch| :: IsCluster(fat, ch[i]))
    && (forall i | 0 <= i < |ch| - 1 :: fat[ch[i]] == ch[i + 1])
    && fat[ch[|ch| - 1]] >= |fat|
  }

  ghost predicate Reaches(fat: seq<nat>, c: nat, ch: seq<nat>) {
    IsChain(fat, ch) && ch[0] == c
  }

  /** Following the links from c comes to an end mark. */
  ghost predicate Ends(fat: seq<nat>, c: nat) {
    exists ch :: Reaches(fat, c, ch)
  }

  /** Every cluster in use starts a chain, no two share a successor, and no link hits a free cluster. */
  ghost predicate Forest(fat: seq<nat>) {
    && (forall c: nat {:trigger Ends(fat, c)} | IsCluster(fat, c) && fat[c] != 0 :: Ends(fat, c))
    && (forall c: nat, d: nat | IsCluster(fat, c) && IsCluster(fat, d) && c != d && IsLink(fat, c) :: fat[c] != fat[d])
  }

  // ---------- chains ----------

  lemma ChainTail(fat: seq<nat>, ch: seq<nat>, k: nat)
    requires IsChain(fat, ch) && k < |ch|
    ensures IsChain(fat, ch[k..])
  {
    var t := ch[k..];
    assert forall i | 0 <= i < |t| :: t[i] == ch[k + i];
  }

  lemma ChainEntry(fat: seq<nat>, ch: seq<nat>, i: nat)
    requires IsChain(fat, ch) && i < |ch|
    ensures IsCluster(fat, ch[i]) && fat[ch[i]] >= 2
    ensures if i == |ch| - 1 then fat[ch[i]] >= |fat| else fat[ch[i]] == ch[i + 1] < |fat|
  {
    if i < |ch| - 1 {
      assert IsCluster(fat, ch[i + 1]);
    }
  }

  /** A chain visits no cluster twice: it could not end otherwise. */
  lemma {:induction false} ChainNoRepeat(fat: seq<nat>, ch: seq<nat>, i: nat, j: nat)
    requires IsChain(fat, ch) && i < j < |ch|
    ensures ch[i] != ch[j]
    decreases |ch| - j
  {
    ChainEntry(fat, ch, i);
    ChainEntry(fat, ch, j);
    if j + 1 < |ch| {
      ChainNoRepeat(fat, ch, i + 1, j + 1);
    }
  }

  /** There is one chain from each cluster. */
  lemma {:induction false} ChainUnique(fat: seq<nat>, ch: seq<nat>, ch': seq<nat>)
    requires IsChain(fat, ch) && IsChain(fat, ch') && ch[0] == ch'[0]
    ensures ch == ch'
    decreases |ch|
  {
    ChainEntry(fat, ch, 0);
    ChainEntry(fat, ch', 0);
    if |ch| > 1 {
      ChainTail(fat, ch, 1);
      ChainTail(fat, ch', 1);
      ChainUnique(fat, ch[1..], ch'[1..]);
      assert ch == [ch[0]] + ch[1..] && ch' == [ch'[0]] + ch'[1..];
    } else {
      assert ch == [ch[0]] && ch' == [ch'[0]];
    }
  }

  /** Two chains that meet have the same rest, so in a forest they are nested. */
  lemma ChainsMeet(fat: seq<nat>, ch: seq<nat>, ch': seq<nat>, i: nat, j: nat)
    requires IsChain(fat, ch) && IsChain(fat, ch') && i < |ch| && j < |ch'| && ch[i] == ch'[j]
    ensures ch[i..] == ch'[j..]
  {
    ChainTail(fat, ch, i);
    ChainTail(fat, ch', j);
    ChainUnique(fat, ch[i..], ch'[j..]);
  }

  // ---------- counting free clusters ----------

  /** Number of free clusters from k on. */
  function NumFreeFrom(fat: seq<nat>, k: nat): nat
    decreases |fat| - k
  {
    if k >= |fat| then 0 else (if fat[k] == 0 then 1 else 0) + NumFreeFrom(fat, k + 1)
  }

  function NumFree(fat: seq<nat>): nat { NumFreeFrom(fat, 2) }

  lemma {:induction false} NumFreeBound(fat: seq<nat>, k: nat)
    requires k <= |fat|
    ensures NumFreeFrom(fat, k) <= |fat| - k
    decreases |fat| - k
  {
    if k < |fat| {
      NumFreeBound(fat, k + 1);
    }
  }

  lemma {:induction false} NumFreeUpdate(fat: seq<nat>, c: nat, v: nat, k: nat)
    requires k <= |fat| && c < |fat|
    ensures NumFreeFrom(fat[c := v], k)
      == NumFreeFrom(fat, k) + if k <= c then (if v == 0 then 1 else 0) - (if fat[c] == 0 then 1 else 0) else 0
    decreases |fat| - k
  {
    if k < |fat| {
      NumFreeUpdate(fat, c, v, k + 1);
    }
  }

  lemma {:induction false} NumFreeZero(fat: seq<nat>, k: nat)
    ensures NumFreeFrom(fat, k) == 0 <==> forall c | k <= c < |fat| :: fat[c] != 0
    decreases |fat| - k
  {
    if k < |fat| {
      NumFreeZero(fat, k + 1);
    }
  }

  // ---------- linking: what create_chain does to the table ----------

  /** The table after cluster n gets the end mark and, unless c is 0, is linked from c. */
  function Linked(fat: seq<nat>, c: nat, n: nat, mark: nat): (fat': seq<nat>)
    requires n < |fat| && c < |fat|
    ensures |fat'| == |fat|
  {
    if c == 0 then fat[n := mark] else fat[n := mark][c := n]
  }

  /** n may be linked from c: it is free, and c (if any) ends a chain. */
  predicate CanLink(fat: seq<nat>, c: nat, n: nat) {
    && IsCluster(fat, n) && fat[n] == 0
    && (c != 0 ==> IsCluster(fat, c) && fat[c] >= |fat|)
  }

  lemma LinkedChain(fat: seq<nat>, ch: seq<nat>, n: nat, mark: nat)
    requires IsChain(fat, ch) && CanLink(fat, ch[|ch| - 1], n) && mark >= |fat|
    ensures IsChain(Linked(fat, ch[|ch| - 1], n, mark), ch + [n])
  {
    var last := ch[|ch| - 1];
    var fat' := Linked(fat, last, n, mark);
    forall i | 0 <= i < |ch| ensures ch[i] != n && (i < |ch| - 1 ==> ch[i] != last) {
      ChainEntry(fat, ch, i);
      if i < |ch| - 1 {
        ChainNoRepeat(fat, ch, i, |ch| - 1);
      }
    }
    forall i | 0 <= i < |ch| ensures fat'[(ch + [n])[i]] == (ch + [n])[i + 1] {
      if i < |ch| - 1 {
        assert fat'[ch[i]] == fat[ch[i]] == ch[i + 1];
      }
    }
  }

  lemma LinkedOther(fat: seq<nat>, ch: seq<nat>, c: nat, n: nat, mark: nat)
    requires IsChain(fat, ch) && CanLink(fat, c, n) && c !in ch
    ensures IsChain(Linked(fat, c, n, mark), ch)
  {
    forall i | 0 <= i < |ch| ensures ch[i] != n && ch[i] != c {
      ChainEntry(fat, ch, i);
    }
  }

  /** In a forest nothing links to a free cluster. */
  lemma NotLinked(fat: seq<nat>, d: nat, n: nat)
    requires Forest(fat) && IsCluster(fat, d) && IsCluster(fat, n) && fat[n] == 0
    ensures fat[d] != n
  {
    if fat[d] == n {
      assert Ends(fat, d);
      var ch :| Reaches(fat, d, ch);
      ChainEntry(fat, ch, 0);
      ChainEntry(fat, ch, 1);
    }
  }

  lemma LinkedReaches(fat: seq<nat>, c: nat, n: nat, mark: nat, d: nat)
    requires Forest(fat) && CanLink(fat, c, n) && mark >= |fat|
    requires IsCluster(fat, d) && Linked(fat, c, n, mark)[d] != 0
    ensures Ends(Linked(fat, c, n, mark), d)
  {
    var fat' := Linked(fat, c, n, mark);
    if d == n {
      assert Reaches(fat', d, [n]);
    } else {
      assert Ends(fat, d);
      var ch :| Reaches(fat, d, ch);
      if c in ch {
        var i :| 0 <= i < |ch| && ch[i] == c;
        ChainEntry(fat, ch, i);
        LinkedChain(fat, ch, n, mark);
        assert Reaches(fat', d, ch + [n]);
      } else {
        LinkedOther(fat, ch, c, n, mark);
        assert Reaches(fat', d, ch);
      }
    }
  }

  /** Linking keeps the forest. */
  lemma LinkedForest(fat: seq<nat>, c: nat, n: nat, mark: nat)
    requires Forest(fat) && CanLink(fat, c, n) && mark >= |fat|
    ensures Forest(Linked(fat, c, n, mark))
  {
    var fat' := Linked(fat, c, n, mark);
    forall d: nat | IsCluster(fat', d) && fat'[d] != 0 ensures Ends(fat', d) {
      LinkedReaches(fat, c, n, mark, d);
    }
    forall d: nat, e: nat | IsCluster(fat', d) && IsCluster(fat', e) && d != e && IsLink(fat', d)
      ensures fat'[d] != fat'[e]
    {
      NotLinked(fat, d, n);
      NotLinked(fat, e, n);
    }
  }

  // ---------- unlinking: what remove_chain does to the table ----------

  /**
   remove_chain's walk from c: it frees one cluster after the other until the end of the chain, a free
   cluster or an invalid entry (then the flag is false).  Every step frees a cluster in use, so the walk
   ends on any table, also a cyclic one.
   */
  ghost function RemoveFrom(fat: seq<nat>, c: nat): (r: (seq<nat>, bool))
    requires IsCluster(fat, c)
    ensures |r.0| == |fat|
    decreases |fat| - NumFree(fat)
  {
    if fat[c] == 0 then (fat, true)
    else if fat[c] == 1 then (fat, false)
    else
      NumFreeUpdate(fat, c, 0, 2);
      NumFreeBound(fat[c := 0], 2);
      if fat[c] < |fat| then RemoveFrom(fat[c := 0], fat[c]) else (fat[c := 0], true)
  }

  /** The table with the clusters of ch freed. */
  function Freed(fat: seq<nat>, ch: seq<nat>): (fat': seq<nat>)
    ensures |fat'| == |fat|
    ensures forall c | 0 <= c < |fat| :: fat'[c] == if c in ch then 0 else fat[c]
  {
    seq(|fat|, c requires 0 <= c < |fat| => if c in ch then 0 else fat[c])
  }

  /** Freeing a chain is freeing its head and then the rest, which is still a chain. */
  lemma FreeHead(fat: seq<nat>, ch: seq<nat>)
    requires IsChain(fat, ch) && |ch| > 1
    ensures ch[0] < |fat| && IsChain(fat[ch[0] := 0], ch[1..]) && Freed(fat[ch[0] := 0], ch[1..]) == Freed(fat, ch)
  {
    ChainEntry(fat, ch, 0);
    ChainTail(fat, ch, 1);
    var t := ch[1..];
    forall i | 0 <= i < |t| ensures t[i] != ch[0] {
      ChainNoRepeat(fat, ch, 0, i + 1);
    }
    assert ch == [ch[0]] + t;
  }

  /** On a proper chain the walk frees exactly the chain. */
  lemma {:induction false} RemoveFromChain(fat: seq<nat>, ch: seq<nat>)
    requires IsChain(fat, ch)
    ensures RemoveFrom(fat, ch[0]) == (Freed(fat, ch), true)
    decreases |ch|
  {
    ChainEntry(fat, ch, 0);
    if |ch| == 1 {
      assert fat[ch[0] := 0] == Freed(fat, ch);
    } else {
      hide IsChain, Freed;
      FreeHead(fat, ch);
      RemoveFromChain(fat[ch[0] := 0], ch[1..]);
    }
  }

  /** The table remove_chain starts its walk on. */
  function Unlinked(fat: seq<nat>, pclst: nat, mark: nat): (fat': seq<nat>)
    requires pclst < |fat|
    ensures |fat'| == |fat|
  {
    if pclst == 0 then fat else fat[pclst := mark]
  }

  /** The table after ch is freed and its predecessor p, unless 0, gets the end mark. */
  function Cut(fat: seq<nat>, p: nat, ch: seq<nat>, mark: nat): (fat': seq<nat>)
    requires p < |fat|
    ensures |fat'| == |fat|
  {
    Freed(Unlinked(fat, p, mark), ch)
  }

  /** ch is cut off where it is safe: right after p, or, with p == 0, at a chain nobody links to. */
  ghost predicate CanCut(fat: seq<nat>, p: nat, ch: seq<nat>) {
    && IsChain(fat, ch)
    && (if p == 0 then forall c: nat | IsCluster(fat, c) :: fat[c] != ch[0]
        else IsCluster(fat, p) && fat[p] == ch[0])
  }

  lemma CutPredecessor(fat: seq<nat>, p: nat, ch: seq<nat>)
    requires CanCut(fat, p, ch) && p != 0
    ensures IsChain(fat, [p] + ch) && p !in ch
  {
    assert IsChain(fat, [p] + ch);
    forall i | 0 <= i < |ch| ensures ch[i] != p {
      ChainNoRepeat(fat, [p] + ch, 0, i + 1);
    }
  }

  /** remove_chain on a proper chain yields Cut. */
  lemma RemoveIsCut(fat: seq<nat>, p: nat, ch: seq<nat>, mark: nat)
    requires CanCut(fat, p, ch) && mark >= |fat|
    ensures RemoveFrom(Unlinked(fat, p, mark), ch[0]) == (Cut(fat, p, ch, mark), true)
  {
    if p != 0 {
      CutPredecessor(fat, p, ch);
      assert IsChain(fat[p := mark], ch);
      RemoveFromChain(fat[p := mark], ch);
    } else {
      RemoveFromChain(fat, ch);
    }
  }

  /** What precedes ch on a chain stays a chain. */
  lemma CutPrefix(fat: seq<nat>, p: nat, ch: seq<nat>, pre: seq<nat>, mark: nat)
    requires CanCut(fat, p, ch) && p != 0 && mark >= |fat|
    requires IsChain(fat, pre + ch) && |pre| > 0 && pre[|pre| - 1] == p
    ensures IsChain(Cut(fat, p, ch, mark), pre)
  {
    var whole, fat' := pre + ch, Cut(fat, p, ch, mark);
    forall i | 0 <= i < |pre| ensures pre[i] !in ch && (i < |pre| - 1 ==> pre[i] != p) {
      if pre[i] in ch {
        var j :| 0 <= j < |ch| && ch[j] == pre[i];
        ChainNoRepeat(fat, whole, i, |pre| + j);
      }
      if i < |pre| - 1 {
        ChainNoRepeat(fat, whole, i, |pre| - 1);
      }
    }
    forall i | 0 <= i < |pre| ensures IsCluster(fat', pre[i]) && (i < |pre| - 1 ==> fat'[pre[i]] == pre[i + 1]) {
      ChainEntry(fat, whole, i);
    }
  }

  lemma CutOther(fat: seq<nat>, p: nat, ch: seq<nat>, other: seq<nat>, mark: nat)
    requires CanCut(fat, p, ch) && mark >= |fat| && IsChain(fat, other)
    requires forall c | c in other :: c !in ch
    ensures IsChain(Cut(fat, p, ch, mark), other)
  {
    var fat' := Cut(fat, p, ch, mark);
    forall i | 0 <= i < |other| ensures other[i] !in ch && other[i] != p {
      assert other[i] in other;
      ChainEntry(fat, other, i);
      ChainEntry(fat, ch, 0);
      assert ch[0] in ch;
      assert i + 1 < |other| ==> other[i + 1] in other;
    }
  }

  /** Where a chain from outside ch meets it, all of ch follows. */
  lemma {:induction false} MeetsAtHead(fat: seq<nat>, ch: seq<nat>, other: seq<nat>, i: nat, j: nat) returns (k: nat)
    requires Forest(fat) && IsChain(fat, ch) && IsChain(fat, other)
    requires i < |other| && j < |ch| && other[i..] == ch[j..] && other[0] !in ch
    ensures 0 < k < |other| && other[k..] == ch
    decreases j
  {
    assert other[i] == other[i..][0] == ch[j..][0] == ch[j];
    if i == 0 {
      assert false;
    } else if j == 0 {
      k := i;
    } else {
      ChainEntry(fat, other, i - 1);
      ChainEntry(fat, ch, j - 1);
      assert IsLink(fat, other[i - 1]);
      assert other[i - 1] == ch[j - 1];
      assert other[i - 1..] == [other[i - 1]] + other[i..];
      assert ch[j - 1..] == [ch[j - 1]] + ch[j..];
      k := MeetsAtHead(fat, ch, other, i - 1, j - 1);
    }
  }

  lemma CutMeeting(fat: seq<nat>, p: nat, ch: seq<nat>, mark: nat, other: seq<nat>, i: nat, j: nat)
    requires Forest(fat) && CanCut(fat, p, ch) && mark >= |fat|
    requires IsChain(fat, other) && other[0] !in ch && i < |other| && j < |ch| && other[i] == ch[j]
    ensures Ends(Cut(fat, p, ch, mark), other[0])
  {
    ChainsMeet(fat, other, ch, i, j);
    var k := MeetsAtHead(fat, ch, other, i, j);
    var pre := other[..k];
    assert other == pre + ch;
    ChainEntry(fat, other, k - 1);
    assert other[k] == other[k..][0] == ch[0];
    PredecessorOf(fat, p, ch, other[k - 1]);
    CutPrefix(fat, p, ch, pre, mark);
    assert Reaches(Cut(fat, p, ch, mark), other[0], pre);
  }

  lemma CutReaches(fat: seq<nat>, p: nat, ch: seq<nat>, mark: nat, d: nat)
    requires Forest(fat) && CanCut(fat, p, ch) && mark >= |fat|
    requires IsCluster(fat, d) && Cut(fat, p, ch, mark)[d] != 0
    ensures Ends(Cut(fat, p, ch, mark), d)
  {
    ChainEntry(fat, ch, 0);
    assert Ends(fat, d);
    var other :| Reaches(fat, d, other);
    if forall c | c in other :: c !in ch {
      CutOther(fat, p, ch, other, mark);
      assert Reaches(Cut(fat, p, ch, mark), d, other);
    } else {
      var c :| c in other && c in ch;
      var i :| 0 <= i < |other| && other[i] == c;
      var j :| 0 <= j < |ch| && ch[j] == c;
      CutMeeting(fat, p, ch, mark, other, i, j);
    }
  }

  lemma PredecessorOf(fat: seq<nat>, p: nat, ch: seq<nat>, q: nat)
    requires Forest(fat) && CanCut(fat, p, ch) && IsCluster(fat, q) && fat[q] == ch[0]
    ensures p != 0 && q == p
  {
    ChainEntry(fat, ch, 0);
    assert IsLink(fat, q);
  }

  /** Cutting off a chain keeps the forest. */
  lemma CutForest(fat: seq<nat>, p: nat, ch: seq<nat>, mark: nat)
    requires Forest(fat) && CanCut(fat, p, ch) && mark >= |fat|
    ensures Forest(Cut(fat, p, ch, mark))
  {
    var fat' := Cut(fat, p, ch, mark);
    forall d: nat | IsCluster(fat', d) && fat'[d] != 0 ensures Ends(fat', d) {
      CutReaches(fat, p, ch, mark, d);
    }
    forall d: nat, e: nat | IsCluster(fat', d) && IsCluster(fat', e) && d != e && IsLink(fat', d)
      ensures fat'[d] != fat'[e]
    {
      assert fat'[d] == fat[d];
      assert IsLink(fat, d);
    }
  }

  lemma {:induction false} NumFreeFreed(fat: seq<nat>, ch: seq<nat>)
    requires IsChain(fat, ch)
    ensures NumFree(Freed(fat, ch)) == NumFree(fat) + |ch|
    decreases |ch|
  {
    ChainEntry(fat, ch, 0);
    var fat' := fat[ch[0] := 0];
    NumFreeUpdate(fat, ch[0], 0, 2);
    if |ch| == 1 {
      assert fat' == Freed(fat, ch);
    } else {
      ChainTail(fat, ch, 1);
      var t := ch[1..];
      forall i | 0 <= i < |t| ensures t[i] != ch[0] {
        ChainNoRepeat(fat, ch, 0, i + 1);
      }
      assert IsChain(fat', t);
      NumFreeFreed(fat', t);
      assert ch == [ch[0]] + t;
      assert Freed(fat', t) == Freed(fat, ch);
    }
  }

  /** remove_chain in a forest: exactly the chain is freed, as many clusters as it has, and a forest is left. */
  lemma RemoveChainForest(fat: seq<nat>, p: nat, ch: seq<nat>, mark: nat)
    requires Forest(fat) && CanCut(fat, p, ch) && mark >= |fat|
    ensures RemoveFrom(Unlinked(fat, p, mark), ch[0]) == (Cut(fat, p, ch, mark), true)
    ensures Forest(Cut(fat, p, ch, mark))
    ensures NumFree(Cut(fat, p, ch, mark)) == NumFree(fat) + |ch|
  {
    RemoveIsCut(fat, p, ch, mark);
    CutForest(fat, p, ch, mark);
    NumFreeCut(fat, p, ch, mark);
  }

  lemma NumFreeCut(fat: seq<nat>, p: nat, ch: seq<nat>, mark: nat)
    requires CanCut(fat, p, ch) && mark >= |fat|
    ensures NumFree(Cut(fat, p, ch, mark)) == NumFree(fat) + |ch|
  {
    if p == 0 {
      NumFreeFreed(fat, ch);
    } else {
      CutPredecessor(fat, p, ch);
      ChainEntry(fat, [p] + ch, 0);
      NumFreeUpdate(fat, p, mark, 2);
      assert IsChain(fat[p := mark], ch);
      NumFreeFreed(fat[p := mark], ch);
    }
  }

  /** Removing a chain without naming its predecessor keeps the forest exactly when it has none. */
  lemma RemoveWholeChain(fat: seq<nat>, ch: seq<nat>)
    requires Forest(fat) && IsChain(fat, ch)
    ensures Forest(RemoveFrom(fat, ch[0]).0) <==> forall q: nat | IsCluster(fat, q) :: fat[q] != ch[0]
  {
    RemoveFromChain(fat, ch);
    if forall q: nat | IsCluster(fat, q) :: fat[q] != ch[0] {
      CutForest(fat, 0, ch, |fat|);
    } else {
      var q: nat :| IsCluster(fat, q) && fat[q] == ch[0];
      CutPredecessor(fat, q, ch);
      var fat' := Freed(fat, ch);
      if Forest(fat') {
        assert fat'[q] == ch[0];
        NotLinked(fat', q, ch[0]);
      }
    }
  }

  /** Removing the chain of cluster 3 without naming cluster 2, which links to it, leaves a link to a free cluster. */
  lemma RemoveNeedsPredecessor()
    ensures var fat := [0, 0, 3, 4]; Forest(fat) && IsChain(fat, [3]) && !Forest(RemoveFrom(fat, 3).0)
  {
    var fat := [0, 0, 3, 4];
    assert IsChain(fat, [3]) && Reaches(fat, 3, [3]);
    assert [2, 3][1..] == [3] && IsChain(fat, [2, 3]) && Reaches(fat, 2, [2, 3]);
    assert Forest(fat);
    RemoveWholeChain(fat, [3]);
    assert IsCluster(fat, 2) && fat[2] == 3;
  }
}
