// db/skiplist.h: SkipList as one thread sees it, on the heap.
module SkipLists {
  import opened Ordering

  const MAX_HEIGHT: nat := 12

  class Node<K> {
    const key: K
    const next: array<Node?<K>>

    constructor (key: K, height: nat)
      ensures this.key == key && next.Length == height && fresh(next)
      ensures forall l :: 0 <= l < height ==> next[l] == null
    {
      this.key := key;
      this.next := new Node?<K>[height](_ => null);
    }
  }

  class SkipList<K(!new, ==)> {
    const c: Comparator<K>
    const head: Node<K>
    var maxHeight: nat
    ghost var members: set<Node<K>>      // every node but the head

    // Node x sorts before key k; the head sorts before all keys.
    predicate NodeBefore(x: Node<K>, k: K) {
      x == head || Lt(c, x.key, k)
    }

    ghost predicate Before(x: Node<K>, y: Node<K>) {
      y != head && NodeBefore(x, y.key)
    }

    ghost function Arrays(): set<object>
      reads this
    {
      (set x | x in members :: x.next as object) + {head.next}
    }

    // y is the nearest node of s after x at level l (null: there is none).
    ghost predicate RightOf(s: set<Node<K>>, l: nat, x: Node<K>, y: Node?<K>) {
      if y == null then forall z :: z in s && l < z.next.Length ==> !Before(x, z)
      else
        && y in s && l < y.next.Length && Before(x, y)
        && forall z :: z in s && l < z.next.Length && Before(x, z) ==> z == y || Before(y, z)
    }

    // The links of levels from <= l < to lead from every node of s and the head to the nearest later node.
    ghost predicate Linked(s: set<Node<K>>, from: nat, to: nat)
      reads set x | x in s :: x.next, head.next
    {
      forall x, l :: x in s + {head} && from <= l < to && l < x.next.Length ==> RightOf(s, l, x, x.next[l])
    }

    ghost predicate Nodes()
      reads this
    {
      && TotalOrder(c)
      && head !in members && head.next.Length == MAX_HEIGHT
      && 1 <= maxHeight <= MAX_HEIGHT
      && (forall x :: x in members ==> 1 <= x.next.Length <= maxHeight && x.next != head.next)
      && (forall x, y :: x in members && y in members && x != y ==> x.key != y.key && x.next != y.next)
    }

    ghost predicate Valid()
      reads this, Arrays()
    {
      && Nodes()
      && Linked(members, 0, MAX_HEIGHT)
    }

    ghost function Keys(): set<K>
      reads this
    {
      set x | x in members :: x.key
    }

    constructor (c: Comparator<K>, anyKey: K)
      requires TotalOrder(c)
      ensures Valid() && Keys() == {} && this.c == c && fresh(head) && fresh(head.next)
    {
      this.c := c;
      this.head := new Node(anyKey, MAX_HEIGHT);
      this.maxHeight := 1;
      this.members := {};
      new;
    }

    // p is the last node of level l before key k.
    ghost predicate IsPred(l: nat, k: K, p: Node<K>)
      reads this
    {
      && p in members + {head} && l < p.next.Length && NodeBefore(p, k)
      && forall z :: z in members && l < z.next.Length && NodeBefore(z, k) ==> !Before(p, z)
    }

    ghost function After(x: Node<K>): set<Node<K>>
      reads this
    {
      set z | z in members && Before(x, z)
    }

    // The earliest node at or after k, and (the caller's buffer) the node before it at
    // every level in use.
    method FindGreaterOrEqual(k: K) returns (r: Node?<K>, prev: seq<Node<K>>)
      requires Valid()
      ensures r == null ==> forall z :: z in members ==> NodeBefore(z, k)
      ensures r != null ==> r in members && !NodeBefore(r, k)
      ensures r != null ==> forall z :: z in members && !NodeBefore(z, k) ==> z == r || Before(r, z)
      ensures |prev| == MAX_HEIGHT && forall l :: 0 <= l < maxHeight ==> IsPred(l, k, prev[l])
    {
      prev := seq(MAX_HEIGHT, _ => head);
      var x := head;
      var level := maxHeight - 1;
      while true
        invariant 0 <= level < maxHeight && |prev| == MAX_HEIGHT
        invariant x in members + {head} && level < x.next.Length && NodeBefore(x, k)
        invariant forall l :: level < l < maxHeight ==> IsPred(l, k, prev[l])
        decreases level, After(x)
      {
        assert RightOf(members, level, x, x.next[level]);
        var next := x.next[level];
        if next != null && NodeBefore(next, k) {
          assert next in After(x) && next !in After(next);
          x := next;
        } else {
          assert IsPred(level, k, x);
          prev := prev[level := x];
          if level == 0 {
            return next, prev;
          }
          level := level - 1;
        }
      }
    }

    method Contains(k: K) returns (found: bool)
      requires Valid()
      ensures found <==> k in Keys()
    {
      var x, _ := FindGreaterOrEqual(k);
      found := x != null && Compare(c, k, x.key) == 0;
    }

    // Splicing x in behind its predecessor p at level l, link by link.
    lemma Splice(l: nat, x: Node<K>, p: Node<K>, q: Node<K>, y: Node?<K>)
      requires Nodes() && x !in members && x != head && l < x.next.Length && x.key !in Keys()
      requires IsPred(l, x.key, p) && q in members + {head} && l < q.next.Length && RightOf(members, l, q, y)
      ensures q == p ==> RightOf(members + {x}, l, x, y) && RightOf(members + {x}, l, p, x)
      ensures q != p ==> RightOf(members + {x}, l, q, y)
    {
      assert forall z :: z in members ==> z.key in Keys();
      assert Before(q, x) && q != p ==> Before(q, p);
    }

    // A node on its way into the list: its key is new, its links are its own.
    ghost predicate Entering(n: Node<K>)
      reads this
    {
      && Nodes() && n !in members && n != head && n.key !in Keys() && n.next.Length <= maxHeight
      && n.next != head.next && forall x :: x in members ==> x.next != n.next
    }

    // One turn of Insert's loop: level i gains n, behind its predecessor p.
    method LinkLevel(i: nat, n: Node<K>, p: Node<K>)
      requires Entering(n) && i < n.next.Length && IsPred(i, n.key, p)
      requires Linked(members + {n}, 0, i) && Linked(members, i, MAX_HEIGHT)
      modifies n.next, p.next
      ensures Linked(members + {n}, 0, i + 1) && Linked(members, i + 1, MAX_HEIGHT)
    {
      hide TotalOrder, RightOf, Before;
      ghost var y := p.next[i];
      Splice(i, n, p, p, y);
      n.next[i] := p.next[i];
      p.next[i] := n;
      forall x, l | x in members + {n} + {head} && 0 <= l < i + 1 && l < x.next.Length
        ensures RightOf(members + {n}, l, x, x.next[l])
      {
        if l < i {
          assert RightOf(members + {n}, l, x, old(x.next[l]));
        } else if x != n && x != p {
          Splice(i, n, p, x, x.next[i]);
        }
      }
    }

    // Levels not in use before start at the head.
    method RaiseHeight(k: K, height: nat, prev: seq<Node<K>>) returns (prev': seq<Node<K>>)
      requires Valid() && height <= MAX_HEIGHT
      requires |prev| == MAX_HEIGHT && forall l :: 0 <= l < maxHeight ==> IsPred(l, k, prev[l])
      modifies this`maxHeight
      ensures Valid() && height <= maxHeight
      ensures |prev'| == MAX_HEIGHT && forall l :: 0 <= l < height ==> IsPred(l, k, prev'[l])
    {
      prev' := prev;
      if height > maxHeight {
        var i := maxHeight;
        while i < height
          invariant maxHeight <= i <= height && |prev'| == MAX_HEIGHT
          invariant forall l :: 0 <= l < i ==> IsPred(l, k, prev'[l])
        {
          prev' := prev'[i := head];
          i := i + 1;
        }
        maxHeight := height;
      }
    }

    method LinkLevels(n: Node<K>, prev: seq<Node<K>>)
      requires Entering(n) && Linked(members, 0, MAX_HEIGHT) && |prev| == MAX_HEIGHT
      requires forall l :: 0 <= l < n.next.Length ==> IsPred(l, n.key, prev[l])
      modifies n.next, Arrays()
      ensures Linked(members + {n}, 0, MAX_HEIGHT)
    {
      var i := 0;
      while i < n.next.Length
        invariant 0 <= i <= n.next.Length
        invariant Linked(members + {n}, 0, i) && Linked(members, i, MAX_HEIGHT)
      {
        LinkLevel(i, n, prev[i]);
        i := i + 1;
      }
      forall x, l | x in members + {n} + {head} && 0 <= l < MAX_HEIGHT && l < x.next.Length
        ensures RightOf(members + {n}, l, x, x.next[l])
      {
        if l >= i {
          assert RightOf(members, l, x, x.next[l]);
        }
      }
    }

    // Insert, for whatever height RandomHeight() picks.
    method Insert(k: K, height: nat) returns (ghost n: Node<K>)
      requires Valid() && k !in Keys() && 1 <= height <= MAX_HEIGHT
      modifies this, Arrays()
      ensures Valid() && fresh(n) && n.key == k && members == old(members) + {n}
      ensures Keys() == old(Keys()) + {k}
    {
      var x: Node?<K>, prev: seq<Node<K>> := FindGreaterOrEqual(k);
      prev := RaiseHeight(k, height, prev);
      var node := new Node(k, height);
      n := node;
      LinkLevels(node, prev);
      members := members + {node};
    }

    // FindLessThan: the latest node before k, the head when there is none.
    method FindLessThan(k: K) returns (x: Node<K>)
      requires Valid()
      ensures IsPred(0, k, x)
    {
      x := head;
      var level := maxHeight - 1;
      while true
        invariant 0 <= level < maxHeight
        invariant x in members + {head} && level < x.next.Length && NodeBefore(x, k)
        decreases level, After(x)
      {
        assert RightOf(members, level, x, x.next[level]);
        var next := x.next[level];
        if next == null || !NodeBefore(next, k) {
          if level == 0 {
            return x;
          }
          level := level - 1;
        } else {
          assert next in After(x) && next !in After(next);
          x := next;
        }
      }
    }

    // FindLast: the last node, the head when the list is empty.
    method FindLast() returns (x: Node<K>)
      requires Valid()
      ensures x in members + {head} && forall z :: z in members ==> !Before(x, z)
    {
      x := head;
      var level := maxHeight - 1;
      while true
        invariant 0 <= level < maxHeight
        invariant x in members + {head} && level < x.next.Length
        decreases level, After(x)
      {
        assert RightOf(members, level, x, x.next[level]);
        var next := x.next[level];
        if next == null {
          if level == 0 {
            return x;
          }
          level := level - 1;
        } else {
          assert next in After(x) && next !in After(next);
          x := next;
        }
      }
    }
  }

  // SkipList::Iterator. null is the invalid position.
  class Iterator<K(!new, ==)> {
    const list: SkipList<K>
    var node: Node?<K>

    ghost predicate Valid()
      reads this, list, list.Arrays()
    {
      list.Valid() && (node != null ==> node in list.members)
    }

    constructor (list: SkipList<K>)
      requires list.Valid()
      ensures Valid() && this.list == list && node == null
    {
      this.list := list;
      this.node := null;
    }

    method Next()
      requires Valid() && node != null
      modifies this
      ensures Valid()
      ensures list.RightOf(list.members, 0, old(node), node)
    {
      assert list.RightOf(list.members, 0, node, node.next[0]);
      node := node.next[0];
    }

    // Prev finds the node whose right neighbour this one is.
    method Prev()
      requires Valid() && node != null
      modifies this
      ensures Valid()
      ensures node == null ==> forall z :: z in list.members ==> !list.Before(z, old(node))
      ensures node != null ==> list.RightOf(list.members, 0, node, old(node))
    {
      var x := list.FindLessThan(node.key);
      node := if x == list.head then null else x;
    }

    method Seek(target: K)
      requires Valid()
      modifies this
      ensures Valid()
      ensures node == null ==> forall z :: z in list.members ==> Lt(list.c, z.key, target)
      ensures node != null ==> Le(list.c, target, node.key)
      ensures node != null ==> forall z :: z in list.members && Lt(list.c, z.key, node.key) ==> Lt(list.c, z.key, target)
    {
      var x, _ := list.FindGreaterOrEqual(target);
      node := x;
    }
  }
}
