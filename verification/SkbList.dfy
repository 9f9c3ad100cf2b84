/** Packet queues: circular doubly linked lists of buffers closed through a head that has the same
    two link fields as a buffer. Each queue is tied to the sequence of buffers it holds. */
module SkbList {

  const WORD := 0x1_0000_0000

  class SkBuff {
    var next: SkBuff?
    var prev: SkBuff?

    constructor ()
      ensures next == null && prev == null
    {
      next, prev := null, null;
    }
  }

  /** Counting modulo the word commutes with counting. */
  lemma Wrap(n: int, d: int)
    ensures (n % WORD + d) % WORD == (n + d) % WORD
  {
    var q := n / WORD;
    assert n + d == (n % WORD + d) + q * WORD;
  }

  lemma WrapSum(n: int, m: int)
    ensures (n % WORD + m % WORD) % WORD == (n + m) % WORD
  {
    Wrap(n, m % WORD);
    Wrap(m, n);
  }

  /** The count after n buffers more, in 32 bits. */
  lemma CountAfter(count: nat, length: int, n: nat, more: nat)
    requires count == (length - 2) % WORD && more % WORD == n % WORD
    ensures (count + more % WORD) % WORD == (length + n - 2) % WORD
  {
    WrapSum(length - 2, n);
  }

  ghost function Spliced(ring: seq<SkBuff>, k: nat, src: seq<SkBuff>): (r: seq<SkBuff>)
    requires k + 1 < |ring|
  {
    ring[..k + 1] + src + ring[k + 1..]
  }

  /** Right after the head, or right before it. */
  lemma SplicedEnds(ring: seq<SkBuff>, src: seq<SkBuff>)
    requires |ring| >= 2
    ensures var r := Spliced(ring, 0, src); r[1..|r| - 1] == src + ring[1..|ring| - 1]
    ensures var r := Spliced(ring, |ring| - 2, src); r[1..|r| - 1] == ring[1..|ring| - 1] + src
  {
  }

  /** Neighbours point at each other. */
  ghost predicate Chain(s: seq<SkBuff>)
    reads s
  {
    && (forall i {:trigger s[i].next} | 0 <= i < |s| - 1 :: s[i].next == s[i + 1])
    && (forall i {:trigger s[i].prev} | 1 <= i < |s| :: s[i].prev == s[i - 1])
  }

  lemma ChainJoin(a: seq<SkBuff>, b: seq<SkBuff>)
    requires Chain(a) && Chain(b) && a != [] && b != []
    requires a[|a| - 1].next == b[0] && b[0].prev == a[|a| - 1]
    ensures Chain(a + b)
  {
  }

  /** The first n buffers are different ones. */
  ghost predicate Distinct(s: seq<SkBuff>, n: nat)
    requires n <= |s|
  {
    forall i, j | 0 <= i < j < n :: s[i] != s[j]
  }

  ghost predicate Disjoint(a: seq<SkBuff>, b: seq<SkBuff>) {
    forall i, j | 0 <= i < |a| && 0 <= j < |b| :: a[i] != b[j]
  }

  lemma DistinctInsert(s: seq<SkBuff>, n: nat, k: nat, src: seq<SkBuff>)
    requires k <= n <= |s| && Distinct(s, n) && Distinct(src, |src|) && Disjoint(s, src)
    ensures Distinct(s[..k] + src + s[k..], n + |src|)
  {
    assert Distinct(s[..k] + src, k + |src|);
  }

  lemma DistinctRemove(s: seq<SkBuff>, n: nat, k: nat)
    requires k < n <= |s| && Distinct(s, n)
    ensures Distinct(s[..k] + s[k + 1..], n - 1)
  {
  }

  /** The buffers of `src` put into a ring after position k. */
  lemma CircularInsert(ring: seq<SkBuff>, k: nat, src: seq<SkBuff>)
    requires |ring| >= 2 && k + 1 < |ring| && src != []
    requires ring[0] == ring[|ring| - 1] && Distinct(ring, |ring| - 1)
    requires Distinct(src, |src|) && Disjoint(ring, src)
    requires Chain(ring[..k + 1]) && Chain(src) && Chain(ring[k + 1..])
    requires ring[k].next == src[0] && src[0].prev == ring[k]
    requires ring[k + 1].prev == src[|src| - 1] && src[|src| - 1].next == ring[k + 1]
    ensures Circular(Spliced(ring, k, src))
  {
    ChainJoin(ring[..k + 1], src);
    ChainJoin(ring[..k + 1] + src, ring[k + 1..]);
    DistinctInsert(ring, |ring| - 1, k + 1, src);
  }

  /** The buffer at position k taken out of a ring. */
  lemma CircularRemove(ring: seq<SkBuff>, k: nat)
    requires |ring| >= 2 && 1 <= k < |ring| - 1
    requires ring[0] == ring[|ring| - 1] && Distinct(ring, |ring| - 1)
    requires Chain(ring[..k]) && Chain(ring[k + 1..])
    requires ring[k - 1].next == ring[k + 1] && ring[k + 1].prev == ring[k - 1]
    ensures Circular(ring[..k] + ring[k + 1..])
  {
    ChainJoin(ring[..k], ring[k + 1..]);
    DistinctRemove(ring, |ring| - 1, k);
  }

  /** A ring without its first buffer. */
  lemma DropFirst(r: seq<SkBuff>)
    requires |r| >= 3
    ensures forall x | x in r[..1] + r[2..] :: x in r
    ensures (r[..1] + r[2..])[1..|r| - 2] == r[1..|r| - 1][1..]
  {
  }

  lemma DisjointNodes(a: seq<SkBuff>, b: seq<SkBuff>)
    requires (set x | x in a) !! (set x | x in b)
    ensures Disjoint(a, b)
  {
    forall i, j | 0 <= i < |a| && 0 <= j < |b|
      ensures a[i] != b[j]
    {
      var p, q := (set x | x in a), (set x | x in b);
      assert a[i] in p && b[j] in q && p * q == {};
    }
  }

  /** The head a ring is spliced from stays outside. */
  lemma HeadStaysOutside(ring: seq<SkBuff>, k: nat, from: seq<SkBuff>)
    requires k + 1 < |ring| && |from| >= 2 && Disjoint(ring, from) && Distinct(from, |from| - 1)
    ensures from[0] !in Spliced(ring, k, from[1..|from| - 1])
  {
    var src := from[1..|from| - 1];
    forall i | 0 <= i < |src| ensures src[i] != from[0] {
      assert src[i] == from[i + 1];
    }
  }

  /** Once around a queue: from its head through all buffers back to the head. Neighbours point
      at each other and no buffer occurs twice. */
  ghost predicate Circular(ring: seq<SkBuff>)
    reads ring
  {
    && |ring| >= 2 && ring[0] == ring[|ring| - 1]
    && Distinct(ring, |ring| - 1)
    && Chain(ring)
  }

  class SkBuffHead {
    /** The head's own link fields, cast to a buffer by the code. */
    const link: SkBuff
    /** A 32-bit counter. */
    var qlen: nat
    ghost var ring: seq<SkBuff>

    ghost predicate Valid()
      reads this, ring
    {
      Circular(ring) && ring[0] == link && qlen == (|ring| - 2) % WORD
    }

    /** The head and its buffers, the objects whose links a queue operation may rewrite. */
    ghost function Nodes(): (s: set<SkBuff>)
      reads this
    {
      set x | x in ring
    }

    /** The queue as a sequence. */
    ghost function Contents(): (s: seq<SkBuff>)
      reads this, ring
      requires Valid()
    {
      ring[1..|ring| - 1]
    }

    /** skb_queue_head_init */
    constructor ()
      ensures Valid() && Contents() == [] && fresh(link)
    {
      var l := new SkBuff();
      link := l;
      qlen := 0;
      ring := [l, l];
      new;
      link.next := link;
      link.prev := link;
    }

    /** __skb_queue_head_init on a head whose buffers moved elsewhere. */
    method Reinit()
      modifies this, link
      ensures Valid() && Contents() == [] && Nodes() == {link}
    {
      link.next := link;
      link.prev := link;
      qlen := 0;
      ring := [link, link];
    }

    method IsEmpty() returns (r: bool)
      requires Valid()
      ensures r <==> Contents() == []
    {
      r := link.next == link;
    }

    /** skb_peek */
    method Peek() returns (r: SkBuff?)
      requires Valid()
      ensures r == if Contents() == [] then null else Contents()[0]
    {
      r := link.next;
      if r == link {
        r := null;
      }
    }

    /** skb_peek_tail */
    method PeekTail() returns (r: SkBuff?)
      requires Valid()
      ensures r == if Contents() == [] then null else Contents()[|Contents()| - 1]
    {
      r := link.prev;
      if r == link {
        r := null;
      }
    }

    /** skb_peek_next: the buffer after Contents()[k], or null at the end. */
    method PeekNext(skb: SkBuff, ghost k: nat) returns (r: SkBuff?)
      requires Valid() && k < |Contents()| && skb == Contents()[k]
      ensures r == if k + 1 == |Contents()| then null else Contents()[k + 1]
    {
      r := skb.next;
      if r == link {
        r := null;
      }
    }

    /** __skb_insert between the neighbours at positions k and k + 1 of the ring. */
    method Insert(newsk: SkBuff, prev: SkBuff, next: SkBuff, ghost k: nat)
      requires Valid() && newsk !in ring
      requires k + 1 < |ring| && prev == ring[k] && next == ring[k + 1]
      modifies this`qlen, this`ring, newsk, prev, next
      ensures Valid()
      ensures ring == old(ring[..k + 1]) + [newsk] + old(ring[k + 1..])
    {
      ghost var was := ring;
      newsk.next := next;
      newsk.prev := prev;
      next.prev := newsk;
      prev.next := newsk;
      assert Chain(was[..k + 1]);
      assert Chain(was[k + 1..]);
      CircularInsert(was, k, [newsk]);
      CountAfter(qlen, |was|, 1, 1);
      qlen := (qlen + 1) % WORD;
      ring := was[..k + 1] + [newsk] + was[k + 1..];
    }

    /** __skb_queue_after the buffer, or the head, at position k of the ring. */
    method QueueAfter(prev: SkBuff, newsk: SkBuff, ghost k: nat)
      requires Valid() && newsk !in ring
      requires k + 1 < |ring| && prev == ring[k]
      modifies this`qlen, this`ring, newsk, prev, ring[k + 1]
      ensures Valid()
      ensures ring == old(ring[..k + 1]) + [newsk] + old(ring[k + 1..])
    {
      Insert(newsk, prev, prev.next, k);
    }

    /** __skb_queue_before the buffer, or the head, at position k + 1 of the ring. */
    method QueueBefore(next: SkBuff, newsk: SkBuff, ghost k: nat)
      requires Valid() && newsk !in ring
      requires k + 1 < |ring| && next == ring[k + 1]
      modifies this`qlen, this`ring, newsk, next, ring[k]
      ensures Valid()
      ensures ring == old(ring[..k + 1]) + [newsk] + old(ring[k + 1..])
    {
      Insert(newsk, next.prev, next, k);
    }

    /** __skb_queue_head */
    method QueueHead(newsk: SkBuff)
      requires Valid() && newsk !in ring
      modifies this`qlen, this`ring, newsk, Nodes()
      ensures Valid() && Contents() == [newsk] + old(Contents())
    {
      QueueAfter(link, newsk, 0);
    }

    /** __skb_queue_tail */
    method QueueTail(newsk: SkBuff)
      requires Valid() && newsk !in ring
      modifies this`qlen, this`ring, newsk, Nodes()
      ensures Valid() && Contents() == old(Contents()) + [newsk]
    {
      QueueBefore(link, newsk, |ring| - 2);
    }

    /** __skb_unlink of the buffer at position k of the ring. */
    method Unlink(skb: SkBuff, ghost k: nat)
      requires Valid() && 1 <= k < |ring| - 1 && skb == ring[k]
      modifies this`qlen, this`ring, ring[k - 1], skb, ring[k + 1]
      ensures Valid()
      ensures ring == old(ring[..k]) + old(ring[k + 1..])
      ensures skb.next == null && skb.prev == null
    {
      ghost var was := ring;
      Wrap(|ring| - 2, -1);
      qlen := (qlen - 1) % WORD;
      var next, prev := skb.next, skb.prev;
      skb.next, skb.prev := null, null;
      next.prev := prev;
      prev.next := next;
      ring := was[..k] + was[k + 1..];
      CircularRemove(was, k);
    }

    /** __skb_dequeue */
    method Dequeue() returns (skb: SkBuff?)
      requires Valid()
      modifies this`qlen, this`ring, Nodes()
      ensures Valid()
      ensures old(Contents()) == [] ==> skb == null && ring == old(ring)
      ensures old(Contents()) != [] ==> skb == old(Contents())[0] && Contents() == old(Contents())[1..]
      ensures Nodes() <= old(Nodes())
    {
      skb := Peek();
      if skb != null {
        DropFirst(ring);
        Unlink(skb, 1);
      }
    }

    /** __skb_dequeue_tail */
    method DequeueTail() returns (skb: SkBuff?)
      requires Valid()
      modifies this`qlen, this`ring, Nodes()
      ensures Valid()
      ensures old(Contents()) == [] ==> skb == null && ring == old(ring)
      ensures old(Contents()) != [] ==>
                var n := |old(Contents())| - 1;
                skb == old(Contents())[n] && Contents() == old(Contents())[..n]
    {
      skb := PeekTail();
      if skb != null {
        Unlink(skb, |ring| - 2);
      }
    }

    /** __skb_queue_purge_reason: every buffer is taken out and freed once, in queue order. */
    method Purge() returns (freed: seq<SkBuff>)
      requires Valid()
      modifies this`qlen, this`ring, Nodes()
      ensures Valid() && Contents() == [] && freed == old(Contents())
    {
      freed := [];
      ghost var was := Contents();
      while true
        invariant Valid() && |freed| <= |was|
        invariant freed == was[..|freed|] && Contents() == was[|freed|..]
        invariant Nodes() <= old(Nodes())
        decreases |was| - |freed|
      {
        var skb := Dequeue();
        if skb == null {
          break;
        }
        assert was[|freed|..][1..] == was[|freed| + 1..];
        freed := freed + [skb];
      }
    }

    /** Two queues that share no buffer. */
    ghost predicate Apart(from: SkBuffHead)
      reads this, from
    {
      this != from && Nodes() !! from.Nodes()
    }

    /** __skb_queue_splice, with the addition of the lengths that every caller does next: hang the buffers
        of `from` between positions k and k + 1 of this ring. */
    method SpliceBetween(from: SkBuffHead, prev: SkBuff, next: SkBuff, ghost k: nat)
      requires Valid() && from.Valid() && this != from && Disjoint(ring, from.ring) && from.Contents() != []
      requires k + 1 < |ring| && prev == ring[k] && next == ring[k + 1]
      modifies this`qlen, this`ring, prev, next, from.ring
      ensures Valid() && ring == old(Spliced(ring, k, from.Contents()))
    {
      ghost var was, src := ring, from.Contents();
      var first, last := from.link.next, from.link.prev;
      first.prev := prev;
      prev.next := first;
      last.next := next;
      next.prev := last;
      assert Chain(was[..k + 1]);
      assert Chain(src);
      assert Chain(was[k + 1..]);
      CircularInsert(was, k, src);
      CountAfter(qlen, |was|, |src|, from.qlen);
      qlen := (qlen + from.qlen) % WORD;
      ring := Spliced(was, k, src);
    }

    /** A queue that is not empty spliced in right after the head, or right before it. */
    method SpliceFront(from: SkBuffHead)
      requires Valid() && from.Valid() && Apart(from) && from.Contents() != []
      modifies this`qlen, this`ring, Nodes(), from.Nodes()
      ensures Valid() && Contents() == old(from.Contents()) + old(Contents()) && from.link !in Nodes()
    {
      DisjointNodes(ring, from.ring);
      HeadStaysOutside(ring, 0, from.ring);
      SplicedEnds(ring, from.Contents());
      SpliceBetween(from, link, link.next, 0);
    }

    method SpliceBack(from: SkBuffHead)
      requires Valid() && from.Valid() && Apart(from) && from.Contents() != []
      modifies this`qlen, this`ring, Nodes(), from.Nodes()
      ensures Valid() && Contents() == old(Contents()) + old(from.Contents()) && from.link !in Nodes()
    {
      DisjointNodes(ring, from.ring);
      HeadStaysOutside(ring, |ring| - 2, from.ring);
      SplicedEnds(ring, from.Contents());
      SpliceBetween(from, link.prev, link, |ring| - 2);
    }

    /** skb_queue_splice: the other queue comes first; its head is left pointing into this one. */
    method Splice(from: SkBuffHead)
      requires Valid() && from.Valid() && Apart(from)
      modifies this`qlen, this`ring, Nodes(), from.Nodes()
      ensures Valid() && Contents() == old(from.Contents()) + old(Contents())
      ensures old(from.Contents()) == [] ==> from.Valid()
    {
      var empty := from.IsEmpty();
      if !empty {
        SpliceFront(from);
      }
    }

    /** skb_queue_splice_init: the other queue comes first and is left empty. */
    method SpliceInit(from: SkBuffHead)
      requires Valid() && from.Valid() && Apart(from)
      modifies this`qlen, this`ring, Nodes(), from, from.Nodes()
      ensures Valid() && Contents() == old(from.Contents()) + old(Contents())
      ensures from.Valid() && from.Contents() == [] && Apart(from)
    {
      var empty := from.IsEmpty();
      if !empty {
        SpliceFront(from);
        from.Reinit();
      }
    }

    /** skb_queue_splice_tail: the other queue comes last. */
    method SpliceTail(from: SkBuffHead)
      requires Valid() && from.Valid() && Apart(from)
      modifies this`qlen, this`ring, Nodes(), from.Nodes()
      ensures Valid() && Contents() == old(Contents()) + old(from.Contents())
      ensures old(from.Contents()) == [] ==> from.Valid()
    {
      var empty := from.IsEmpty();
      if !empty {
        SpliceBack(from);
      }
    }

    /** skb_queue_splice_tail_init: the other queue comes last and is left empty. */
    method SpliceTailInit(from: SkBuffHead)
      requires Valid() && from.Valid() && Apart(from)
      modifies this`qlen, this`ring, Nodes(), from, from.Nodes()
      ensures Valid() && Contents() == old(Contents()) + old(from.Contents())
      ensures from.Valid() && from.Contents() == [] && Apart(from)
    {
      var empty := from.IsEmpty();
      if !empty {
        SpliceBack(from);
        from.Reinit();
      }
    }
  }
}
