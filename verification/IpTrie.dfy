/** The mutable byte trie of internal/ipam/simple.go. */
module IpTrie {
  import opened NetAddr

  class IpNode {
    var children: map<Byte, IpNode>
    var isEnd: bool

    constructor ()
      ensures children == map[] && !isEnd
    {
      children, isEnd := map[], false;
    }
  }

  class Trie {
    var root: IpNode
    /** Every node of the trie under the byte path that leads to it. */
    ghost var nodes: map<Bytes, IpNode>
    ghost var repr: set<IpNode>

    /** The edge b of the node under p is there exactly when p + [b] has a node, and leads to it. */
    ghost predicate Linked(p: Bytes, b: Byte)
      reads this, repr
    {
      p in nodes && nodes[p] in repr &&
      if b in nodes[p].children then p + [b] in nodes && nodes[p].children[b] == nodes[p + [b]]
      else p + [b] !in nodes
    }

    /** The nodes form a tree: one path per node, and an edge exactly where the longer path exists. */
    ghost predicate Valid()
      reads this, repr
    {
      && [] in nodes && nodes[[]] == root
      && (forall p :: p in nodes ==> nodes[p] in repr)
      && (forall p, q :: p in nodes && q in nodes && p != q ==> nodes[p] != nodes[q])
      && (forall p, b: Byte {:trigger Linked(p, b)} :: p in nodes ==> Linked(p, b))
      && (forall p {:trigger p[..|p| - 1]} :: p in nodes && p != [] ==> p[..|p| - 1] in nodes)
    }

    ghost function Members(): set<Bytes>
      requires Valid()
      reads this, repr
    {
      set p | p in nodes && nodes[p].isEnd
    }

    /** The members of a well-formed trie. */
    ghost function Contents(): Option<set<Bytes>>
      reads this, repr
    {
      if Valid() then Some(Members()) else None
    }

    constructor ()
      ensures Valid() && fresh(repr) && Members() == {}
    {
      root := new IpNode();
      new;
      nodes, repr := map[[] := root], {root};
      assert forall p: Bytes, b: Byte :: p + [b] != [];
      assert forall b: Byte :: Linked([], b);
    }

    lemma PrefixClosed(p: Bytes, i: nat)
      requires Valid() && p in nodes && i <= |p|
      ensures p[..i] in nodes
      decreases |p|
    {
      if i < |p| {
        var q := p[..|p| - 1];
        PrefixClosed(q, i);
        assert q[..i] == p[..i];
      } else {
        assert p[..i] == p;
      }
    }

    method Insert(ip: Bytes)
      requires Valid()
      modifies this, repr
      ensures Valid() && fresh(repr - old(repr)) && root == old(root)
      ensures Members() == old(Members()) + {ip}
    {
      var node := root;
      var i := 0;
      assert ip[..0] == [];
      while i < |ip|
        invariant i <= |ip| && ip[..i] in nodes && node == nodes[ip[..i]]
        invariant Valid() && fresh(repr - old(repr)) && root == old(root)
        invariant Members() == old(Members())
      {
        var b := ip[i];
        assert ip[..i + 1] == ip[..i] + [b] && Linked(ip[..i], b);
        if b !in node.children {
          AddChild(ip[..i], node, b);
        }
        node := node.children[b];
        i := i + 1;
      }
      assert ip[..i] == ip;
      label walked:
      node.isEnd := true;
      forall p, b: Byte | p in nodes
        ensures Linked(p, b)
      {
        assert old@walked(Linked(p, b));
      }
    }

    /** One missing edge of Insert's walk: a fresh, unmarked node under path p. */
    method AddChild(ghost p: Bytes, node: IpNode, b: Byte)
      requires Valid() && p in nodes && node == nodes[p] && b !in node.children
      modifies this, node
      ensures Valid() && fresh(repr - old(repr)) && root == old(root)
      ensures Members() == old(Members())
      ensures nodes.Keys == old(nodes.Keys) + {p + [b]}
      ensures nodes[p] == node && b in node.children
      ensures node.children[b] == nodes[p + [b]]
    {
      ghost var path := p + [b];
      assert Linked(p, b);
      var child := new IpNode();
      node.children := node.children[b := child];
      nodes, repr := nodes[path := child], repr + {child};
      forall q, c: Byte | q in nodes
        ensures Linked(q, c)
      {
        SnocInjective(q, c, p, b);
        if q == path {
          LastCut(q, c);
        } else {
          assert old(Linked(q, c));
          assert q != p ==> nodes[q] != node;
        }
      }
      LastCut(p, b);
    }

    static lemma LastCut(q: Bytes, c: Byte)
      ensures q + [c] != [] && (q + [c])[..|q + [c]| - 1] == q
    {}

    static lemma SnocInjective(q: Bytes, c: Byte, p: Bytes, b: Byte)
      ensures q + [c] == p + [b] <==> q == p && c == b
    {
      if q + [c] == p + [b] {
        assert (q + [c])[..|q|] == q && (p + [b])[..|p|] == p;
        assert (q + [c])[|q|] == c && (p + [b])[|p|] == b;
      }
    }

    method Contains(ip: Bytes) returns (found: bool)
      requires Valid()
      ensures found <==> To16(ip) in Members()
    {
      var key := To16(ip);
      var node := root;
      assert key[..0] == [];
      for i := 0 to |key|
        invariant key[..i] in nodes && node == nodes[key[..i]]
      {
        assert key[..i + 1] == key[..i] + [key[i]] && Linked(key[..i], key[i]);
        if key[i] !in node.children {
          if key in nodes { PrefixClosed(key, i + 1); }
          return false;
        }
        node := node.children[key[i]];
      }
      assert key[..|key|] == key;
      return node.isEnd;
    }
  }
}
