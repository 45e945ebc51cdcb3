/**
 The allocator's flags and free lists as a value, its invariant, and the four elementary
 changes every operation is made of.

 `valid` and `avail` are the two flags of each block. A merged child keeps whatever
 `available` flag it had, so `avail` means something only where `valid` holds.
 `free[b]` is the content of the bucket for blocks of 2^(16+b) bytes, head first.
 */
module BuddyPool {
  import opened Powers
  import opened BuddyTree

  datatype Pool = Pool(levels: nat, valid: seq<bool>, avail: seq<bool>, free: seq<seq<nat>>)

  ghost predicate Live(s: Pool, i: nat) { i < |s.valid| && s.valid[i] }

  ghost predicate Avail(s: Pool, i: nat) { i < |s.avail| && s.avail[i] }

  ghost predicate FreeLeaf(s: Pool, i: nat) { Live(s, i) && Avail(s, i) }

  /** A live node handed out to a caller. */
  ghost predicate Used(s: Pool, i: nat) { Live(s, i) && !FreeLeaf(s, i) && !Live(s, Left(i)) }

  ghost predicate Leaf(s: Pool, i: nat) { Live(s, i) && !Live(s, Left(i)) }

  ghost predicate NoDuplicates(l: seq<nat>)
  {
    forall j, k :: 0 <= j < k < |l| ==> l[j] != l[k]
  }

  /** Room for a full tree, and a bucket for every block size. */
  ghost predicate Sized(s: Pool)
  {
    && |s.valid| == |s.avail|
    && Pow2(s.levels + 1) - 1 <= |s.valid|
    && s.levels < |s.free|
  }

  /** Live nodes form a full binary tree whose divided nodes are never available. */
  ghost predicate FullTree(s: Pool)
  {
    && Live(s, 0)
    && (forall i: nat {:trigger Live(s, i)} :: Live(s, i) ==> Depth(i) <= s.levels)
    && (forall i: nat {:trigger Live(s, Left(i))} :: Live(s, Left(i)) ==> Live(s, i) && !FreeLeaf(s, i))
    && (forall i: nat {:trigger Live(s, Left(i))} {:trigger Live(s, Right(i))} ::
        Live(s, Left(i)) <==> Live(s, Right(i)))
  }

  /** No two buddies are both free. */
  ghost predicate Coalesced(s: Pool)
  {
    forall i: nat {:trigger FreeLeaf(s, Left(i))} {:trigger FreeLeaf(s, Right(i))} ::
      FreeLeaf(s, Left(i)) ==> !FreeLeaf(s, Right(i))
  }

  /** Each bucket lists the free leaves of its own size, each of them once. */
  ghost predicate Listed(s: Pool)
  {
    forall b :: 0 <= b < |s.free| ==>
      NoDuplicates(s.free[b]) &&
      forall i: nat {:trigger i in s.free[b]} {:trigger FreeLeaf(s, i)} ::
        i in s.free[b] <==> FreeLeaf(s, i) && Depth(i) + b == s.levels
  }

  ghost predicate Inv(s: Pool)
  {
    Sized(s) && FullTree(s) && Coalesced(s) && Listed(s)
  }

  ghost function UsedSet(s: Pool): set<nat>
  {
    set i: nat | i < |s.valid| && Used(s, i)
  }

  lemma {:induction false} InUsedSet(s: Pool, i: nat)
    ensures i in UsedSet(s) <==> Used(s, i)
  {
  }

  ghost function FreeSet(s: Pool): set<nat>
  {
    set i: nat | i < |s.valid| && FreeLeaf(s, i)
  }

  lemma {:induction false} LiveInRange(s: Pool, i: nat)
    requires Sized(s) && Depth(i) <= s.levels
    ensures i < |s.valid|
    ensures i > 0 ==> Parent(i) < |s.valid| && Buddy(i) < |s.valid|
  {
    IndexBound(s.levels, i);
    if i > 0 {
      ParentChild(i);
      IndexBound(s.levels, Buddy(i));
    }
  }

  // ----- Elementary changes -----

  /** Take the head of a bucket's list. */
  function Take(s: Pool, b: nat): Pool
    requires b < |s.free| && s.free[b] != []
    requires s.free[b][0] < |s.avail|
  {
    s.(avail := s.avail[s.free[b][0] := false], free := s.free[b := s.free[b][1..]])
  }

  /** Divide a used block: its left half stays used, its right half becomes free. */
  function Divide(s: Pool, p: nat, b: nat): Pool
    requires b < |s.free|
    requires Right(p) < |s.valid| == |s.avail|
  {
    s.(valid := s.valid[Left(p) := true][Right(p) := true],
       avail := s.avail[Left(p) := false][Right(p) := true],
       free := s.free[b := s.free[b] + [Right(p)]])
  }

  function Remove(l: seq<nat>, x: nat): (r: seq<nat>)
    ensures x !in l ==> r == l
  {
    if l == [] then [] else if l[0] == x then l[1..] else [l[0]] + Remove(l[1..], x)
  }

  /**
   Fuse a block with its free buddy: both stop being valid and the parent's `available`
   flag is raised although the parent is in no list yet.
   */
  function Fuse(s: Pool, i: nat, b: nat): Pool
    requires i > 0 && b < |s.free|
    requires i < |s.valid| == |s.avail| && Buddy(i) < |s.valid|
  {
    s.(valid := s.valid[Buddy(i) := false][i := false],
       avail := s.avail[Parent(i) := true],
       free := s.free[b := Remove(s.free[b], Buddy(i))])
  }

  /** Give a used block back to its bucket. */
  function Put(s: Pool, i: nat, b: nat): Pool
    requires i < |s.avail| && b < |s.free|
  {
    s.(avail := s.avail[i := true], free := s.free[b := s.free[b] + [i]])
  }

  // ----- What the elementary changes keep -----

  lemma {:induction false} RemoveMember(l: seq<nat>, x: nat, y: nat)
    requires NoDuplicates(l)
    ensures y in Remove(l, x) <==> y in l && y != x
    ensures |Remove(l, x)| == (if x in l then |l| - 1 else |l|)
  {
    if l == [] {
    } else if l[0] == x {
      assert y in l <==> y == l[0] || y in l[1..];
    } else {
      RemoveMember(l[1..], x, y);
      assert y in l <==> y == l[0] || y in l[1..];
      assert x in l <==> x in l[1..];
    }
  }

  lemma {:induction false} RemoveKeepsNoDuplicates(l: seq<nat>, x: nat)
    requires NoDuplicates(l)
    ensures NoDuplicates(Remove(l, x))
  {
    if l == [] || l[0] == x {
    } else {
      RemoveKeepsNoDuplicates(l[1..], x);
      RemoveMember(l[1..], x, l[0]);
      var r := Remove(l[1..], x);
      assert l[0] !in r;
      assert forall k :: 0 <= k < |r| ==> ([l[0]] + r)[k + 1] == r[k];
    }
  }

  lemma {:induction false} NoDuplicatesTail(l: seq<nat>)
    requires l != [] && NoDuplicates(l)
    ensures NoDuplicates(l[1..]) && forall k :: 0 < k < |l| ==> l[k] != l[0]
  {
  }

  lemma {:induction false} SlicesOfTail(l: seq<nat>, k: nat)
    requires 0 < k < |l|
    ensures l[1..][k - 1] == l[k]
    ensures [l[0]] + (l[1..][..k - 1] + l[1..][k..]) == l[..k] + l[k + 1..]
  {
    assert l[1..][..k - 1] == l[1..k] && l[1..][k..] == l[k + 1..];
    assert [l[0]] + l[1..k] == l[..k];
  }

  /** Position form of `Remove`. */
  lemma {:induction false} RemoveAt(l: seq<nat>, k: nat)
    requires k < |l| && NoDuplicates(l)
    ensures Remove(l, l[k]) == l[..k] + l[k + 1..]
  {
    hide NoDuplicates;
    if k == 0 {
      assert l[..0] + l[1..] == l[1..];
    } else {
      NoDuplicatesTail(l);
      SlicesOfTail(l, k);
      RemoveAt(l[1..], k - 1);
    }
  }

  /** A change confined to one bucket and to the nodes of that bucket's size keeps `Listed`. */
  lemma {:induction false} RelistKeepsListed(s: Pool, t: Pool, b: nat)
    requires Listed(s) && t.levels == s.levels && b < |s.free|
    requires |t.free| == |s.free| && (forall c :: 0 <= c < |s.free| && c != b ==> t.free[c] == s.free[c])
    requires NoDuplicates(t.free[b])
    requires forall i: nat {:trigger i in t.free[b]} {:trigger FreeLeaf(t, i)} ::
      i in t.free[b] <==> FreeLeaf(t, i) && Depth(i) + b == t.levels
    requires forall i: nat {:trigger FreeLeaf(t, i)} ::
      Depth(i) + b != t.levels ==> (FreeLeaf(t, i) <==> FreeLeaf(s, i))
    ensures Listed(t)
  {
    forall c | 0 <= c < |t.free|
      ensures NoDuplicates(t.free[c])
      ensures forall i: nat {:trigger i in t.free[c]} {:trigger FreeLeaf(t, i)} ::
        i in t.free[c] <==> FreeLeaf(t, i) && Depth(i) + c == t.levels
    {
      if c != b {
        assert t.free[c] == s.free[c];
      }
    }
  }

  lemma {:induction false} TakeKeepsInv(s: Pool, b: nat)
    requires Inv(s) && b <= s.levels && s.free[b] != []
    ensures FreeLeaf(s, s.free[b][0]) && s.free[b][0] < |s.avail|
    ensures Depth(s.free[b][0]) + b == s.levels
    ensures Inv(Take(s, b)) && Used(Take(s, b), s.free[b][0])
    ensures UsedSet(Take(s, b)) == UsedSet(s) + {s.free[b][0]}
    ensures FreeSet(Take(s, b)) == FreeSet(s) - {s.free[b][0]}
  {
    var x := s.free[b][0];
    assert x in s.free[b];
    var t := Take(s, b);
    assert forall i: nat :: Live(t, i) <==> Live(s, i);
    assert forall i: nat :: FreeLeaf(t, i) <==> FreeLeaf(s, i) && i != x;
    assert forall i: nat :: i in t.free[b] <==> i in s.free[b] && i != x;
    RelistKeepsListed(s, t, b);
    assert forall i: nat :: Used(t, i) <==> Used(s, i) || i == x;
  }

  /** How `Divide` changes which nodes are live and free. */
  ghost predicate DividedFlags(s: Pool, t: Pool, p: nat)
  {
    && (forall i: nat :: Live(t, i) <==> Live(s, i) || i == Left(p) || i == Right(p))
    && (forall i: nat :: FreeLeaf(t, i) <==> FreeLeaf(s, i) || i == Right(p))
  }

  lemma {:induction false} DividedAt(s: Pool, t: Pool, p: nat, i: nat)
    requires FullTree(s) && Coalesced(s) && Used(s, p)
    requires DividedFlags(s, t, p)
    ensures Live(t, Left(i)) <==> Live(t, Right(i))
    ensures Live(t, Left(i)) ==> Live(t, i) && !FreeLeaf(t, i)
    ensures FreeLeaf(t, Left(i)) ==> !FreeLeaf(t, Right(i))
  {
    assert Live(s, Left(i)) <==> Live(s, Right(i));
    assert Live(s, Left(p)) <==> Live(s, Right(p));
    assert FreeLeaf(s, Left(i)) ==> !FreeLeaf(s, Right(i));
  }

  lemma {:induction false} DividedTree(s: Pool, t: Pool, p: nat)
    requires FullTree(s) && Coalesced(s) && Used(s, p) && Depth(p) < s.levels == t.levels
    requires DividedFlags(s, t, p)
    ensures FullTree(t) && Coalesced(t)
  {
    ChildDepth(p);
    forall i: nat { DividedAt(s, t, p, i); }
  }

  lemma {:induction false} DividedUsed(s: Pool, t: Pool, p: nat)
    requires FullTree(s) && Used(s, p) && DividedFlags(s, t, p)
    ensures forall i: nat :: Used(t, i) <==> (Used(s, i) && i != p) || i == Left(p)
  {
    assert Live(s, Left(p)) <==> Live(s, Right(p));
    forall i: nat
      ensures Used(t, i) <==> (Used(s, i) && i != p) || i == Left(p)
    {
      assert Live(s, Left(i)) ==> Live(s, i);
    }
  }

  lemma {:induction false} DivideKeepsInv(s: Pool, p: nat, b: nat)
    requires Inv(s) && Used(s, p) && Depth(p) + b + 1 == s.levels
    ensures Right(p) < |s.valid|
    ensures Inv(Divide(s, p, b)) && Used(Divide(s, p, b), Left(p))
    ensures UsedSet(Divide(s, p, b)) == UsedSet(s) - {p} + {Left(p)}
    ensures FreeSet(Divide(s, p, b)) == FreeSet(s) + {Right(p)}
    ensures !Live(s, Left(p)) && !Live(s, Right(p))
  {
    ChildDepth(p);
    IndexBound(s.levels, Right(p));
    var t := Divide(s, p, b);
    assert Live(s, Left(p)) <==> Live(s, Right(p));
    assert DividedFlags(s, t, p);
    DividedTree(s, t, p);
    DividedUsed(s, t, p);
    assert Right(p) !in s.free[b];
    assert forall i: nat :: i in t.free[b] <==> i in s.free[b] || i == Right(p);
    RelistKeepsListed(s, t, b);
  }

  /** The pool with block i read as used, whatever its `available` flag says. */
  function Held(s: Pool, i: nat): Pool
    requires i < |s.avail|
  {
    s.(avail := s.avail[i := false])
  }

  /** The room a held block has around it. */
  lemma {:induction false} HeldRoom(s: Pool, i: nat)
    requires i < |s.avail| && Inv(Held(s, i)) && Used(Held(s, i), i)
    ensures Depth(i) <= s.levels < |s.free| && |s.valid| == |s.avail|
  {
  }

  /** How fusing the children of p changes which nodes are live and free: the reverse of `DividedFlags`. */
  ghost predicate FusedFlags(s: Pool, t: Pool, p: nat)
  {
    && (forall i: nat :: Live(t, i) <==> Live(s, i) && i != Left(p) && i != Right(p))
    && (forall i: nat :: FreeLeaf(t, i) <==> FreeLeaf(s, i) && i != Left(p) && i != Right(p))
  }

  lemma {:induction false} FusedAt(s: Pool, t: Pool, p: nat, i: nat)
    requires FullTree(s) && Coalesced(s) && Live(s, Left(p))
    requires !Live(s, Left(Left(p))) && !Live(s, Left(Right(p)))
    requires FusedFlags(s, t, p)
    ensures Live(t, Left(i)) <==> Live(t, Right(i))
    ensures Live(t, Left(i)) ==> Live(t, i) && !FreeLeaf(t, i)
    ensures FreeLeaf(t, Left(i)) ==> !FreeLeaf(t, Right(i))
  {
    assert Live(s, Left(i)) <==> Live(s, Right(i));
    assert FreeLeaf(s, Left(i)) ==> !FreeLeaf(s, Right(i));
  }

  lemma {:induction false} FusedTree(s: Pool, t: Pool, p: nat)
    requires FullTree(s) && Coalesced(s) && t.levels == s.levels && Live(s, Left(p))
    requires !Live(s, Left(Left(p))) && !Live(s, Left(Right(p)))
    requires FusedFlags(s, t, p)
    ensures FullTree(t) && Coalesced(t)
  {
    forall i: nat { FusedAt(s, t, p, i); }
  }

  lemma {:induction false} FusedUsed(s: Pool, t: Pool, p: nat)
    requires FullTree(s) && Live(s, Left(p))
    requires !Live(s, Left(Left(p))) && !Live(s, Left(Right(p)))
    requires FusedFlags(s, t, p)
    ensures forall i: nat :: Used(t, i) <==> (Used(s, i) && i != Left(p) && i != Right(p)) || i == p
  {
    assert Live(s, Left(p)) <==> Live(s, Right(p));
    forall i: nat
      ensures Used(t, i) <==> (Used(s, i) && i != Left(p) && i != Right(p)) || i == p
    {
      assert Live(s, Left(i)) <==> Live(s, Right(i));
    }
  }

  /** What is known of a held block and its free buddy before they are fused. */
  lemma {:induction false} BeforeFuse(s: Pool, i: nat)
    requires i < |s.avail| && Inv(Held(s, i)) && Used(Held(s, i), i)
    requires i > 0 && Avail(s, Buddy(i))
    ensures Buddy(i) < |s.valid| && Parent(i) < |s.avail|
    ensures Live(s, Parent(i)) && !Avail(s, Parent(i)) && FreeLeaf(s, Buddy(i))
    ensures FreeLeaf(Held(s, i), Buddy(i))
    ensures !Live(s, Left(Left(Parent(i)))) && !Live(s, Left(Right(Parent(i))))
    ensures Live(s, Left(Parent(i))) && Live(s, Right(Parent(i)))
  {
    var h := Held(s, i);
    LiveInRange(h, i);
    ParentChild(i);
    var p := Parent(i);
    assert Live(h, Left(p)) <==> Live(h, Right(p));
    assert forall j: nat :: Live(h, j) <==> Live(s, j);
    assert FreeLeaf(h, Buddy(i));
    var d := Buddy(i);
    assert Live(h, Left(d)) ==> !FreeLeaf(h, d);
  }

  lemma {:induction false} FuseFlags(s: Pool, i: nat, b: nat)
    requires i < |s.avail| && Inv(Held(s, i)) && Used(Held(s, i), i)
    requires i > 0 && Avail(s, Buddy(i)) && b < |s.free|
    ensures Buddy(i) < |s.valid| && Parent(i) < |s.avail|
    ensures FusedFlags(Held(s, i), Held(Fuse(s, i, b), Parent(i)), Parent(i))
  {
    BeforeFuse(s, i);
    ParentChild(i);
  }

  lemma {:induction false} FuseListed(s: Pool, i: nat, b: nat)
    requires i < |s.avail| && Inv(Held(s, i)) && Used(Held(s, i), i)
    requires i > 0 && Avail(s, Buddy(i)) && Depth(i) + b == s.levels
    ensures Buddy(i) < |s.valid| && Parent(i) < |s.avail|
    ensures Listed(Held(Fuse(s, i, b), Parent(i)))
  {
    BeforeFuse(s, i);
    FuseFlags(s, i, b);
    ParentChild(i);
    var h, d, t := Held(s, i), Buddy(i), Held(Fuse(s, i, b), Parent(i));
    forall y: nat
      ensures y in t.free[b] <==> y in h.free[b] && y != d
    {
      RemoveMember(h.free[b], d, y);
    }
    RemoveKeepsNoDuplicates(h.free[b], d);
    assert i !in h.free[b];
    RelistKeepsListed(h, t, b);
  }

  lemma {:induction false} FuseKeepsInv(s: Pool, i: nat, b: nat)
    requires i < |s.avail| && Inv(Held(s, i)) && Used(Held(s, i), i)
    requires i > 0 && Avail(s, Buddy(i)) && Depth(i) + b == s.levels
    ensures Buddy(i) < |s.valid| && Parent(i) < |s.avail|
    ensures Inv(Held(Fuse(s, i, b), Parent(i))) && Used(Held(Fuse(s, i, b), Parent(i)), Parent(i))
    ensures UsedSet(Held(Fuse(s, i, b), Parent(i))) == UsedSet(Held(s, i)) - {i} + {Parent(i)}
    ensures FreeSet(Held(Fuse(s, i, b), Parent(i))) == FreeSet(Held(s, i)) - {Buddy(i)}
  {
    BeforeFuse(s, i);
    ParentChild(i);
    FuseFlags(s, i, b);
    FuseListed(s, i, b);
    var h, t := Held(s, i), Held(Fuse(s, i, b), Parent(i));
    FusedTree(h, t, Parent(i));
    FusedUsed(h, t, Parent(i));
  }

  lemma {:induction false} PutKeepsInv(s: Pool, i: nat, b: nat)
    requires Inv(s) && Used(s, i) && Depth(i) + b == s.levels
    requires i > 0 ==> !Avail(s, Buddy(i))
    ensures Inv(Put(s, i, b))
    ensures UsedSet(Put(s, i, b)) == UsedSet(s) - {i}
    ensures FreeSet(Put(s, i, b)) == FreeSet(s) + {i}
  {
    var t := Put(s, i, b);
    assert forall j: nat :: Live(t, j) <==> Live(s, j);
    assert forall j: nat :: FreeLeaf(t, j) <==> FreeLeaf(s, j) || j == i;
    forall j: nat | FreeLeaf(t, Left(j))
      ensures !FreeLeaf(t, Right(j))
    {
      ChildDepth(j);
    }
    assert forall j: nat :: j in t.free[b] <==> j in s.free[b] || j == i;
    RelistKeepsListed(s, t, b);
  }
}
