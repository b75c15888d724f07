/** The mutable property tree: nodes holding an insertion-ordered dictionary of children, shared by
    all the views taken of it. Every operation is proved against the map of PropertySpec. */
module PropertyTree {
  import opened Wrappers
  import opened PropertyPaths
  import opened PropertySpec

  /** node_type: a dictionary of children, kept as its keys and its values in insertion order, and a
      property. The ghost path says where in the tree the node hangs. */
  class Node<P> {
    var keys: seq<string>
    var vals: seq<Node<P>>
    var prop: Option<P>
    ghost const path: Path

    constructor (ghost path: Path)
      ensures keys == [] && vals == [] && prop == None && this.path == path
    {
      keys, vals := [], [];
      prop := None;
      this.path := path;
    }

    /** has_key */
    method HasKey(name: string) returns (found: bool)
      ensures found <==> name in keys
    {
      for i := 0 to |keys|
        invariant name !in keys[..i]
      {
        if keys[i] == name {
          return true;
        }
      }
      return false;
    }

    /** operator[] on a key that is present */
    method At(name: string) returns (node: Node<P>)
      requires name in keys && |keys| == |vals|
      ensures exists i :: 0 <= i < |keys| && keys[i] == name && vals[i] == node
    {
      var i := 0;
      while keys[i] != name
        invariant i < |keys| && name in keys[i..]
        decreases |keys| - i
      {
        i := i + 1;
      }
      return vals[i];
    }

    /** operator[] on a key that is absent, assigned a new node */
    method Add(name: string, node: Node<P>)
      requires name !in keys
      modifies this`keys, this`vals
      ensures keys == old(keys) + [name] && vals == old(vals) + [node]
    {
      keys, vals := keys + [name], vals + [node];
    }

    /** pop: erases the first pair with the key, and throws when there is none */
    method Pop(name: string) returns (ok: bool, ghost at: nat)
      requires |keys| == |vals|
      modifies this`keys, this`vals
      ensures ok <==> name in old(keys)
      ensures !ok ==> keys == old(keys) && vals == old(vals)
      ensures ok ==> at < |old(keys)| && old(keys)[at] == name
      ensures ok ==> keys == old(keys)[..at] + old(keys)[at + 1..]
      ensures ok ==> vals == old(vals)[..at] + old(vals)[at + 1..]
    {
      for i := 0 to |keys|
        invariant keys == old(keys) && vals == old(vals)
        invariant name !in keys[..i]
      {
        if keys[i] == name {
          keys, vals := keys[..i] + keys[i + 1..], vals[..i] + vals[i + 1..];
          return true, i;
        }
      }
      return false, 0;
    }
  }

  /** LinkedAt, on the keys and values a node had. */
  ghost predicate HangsAt<P(!new)>(nodes: map<Path, Node<P>>, p: Path, keys: seq<string>, vals: seq<Node<P>>, i: nat)
    requires i < |keys| == |vals|
  {
    p + [keys[i]] in nodes && nodes[p + [keys[i]]] == vals[i]
  }

  ghost predicate Hang<P(!new)>(nodes: map<Path, Node<P>>, p: Path, keys: seq<string>, vals: seq<Node<P>>) {
    |keys| == |vals| && forall i :: 0 <= i < |keys| ==> HangsAt(nodes, p, keys, vals, i)
  }

  /** The keys and values of a node. */
  datatype Links<!P(!new)> = Links(keys: seq<string>, vals: seq<Node<P>>)

  ghost function LinksWithout<P(!new)>(links: Links<P>, at: nat): Links<P> {
    if at < |links.keys| && at < |links.vals|
    then Links(links.keys[..at] + links.keys[at + 1..], links.vals[..at] + links.vals[at + 1..])
    else links
  }

  /** Every node hangs where the map says, by the links given. */
  ghost predicate HungBy<P(!new)>(nodes: map<Path, Node<P>>, links: map<Path, Links<P>>) {
    && links.Keys == nodes.Keys
    && forall p {:trigger nodes[p]} :: p in nodes ==>
         nodes[p].path == p && Hang(nodes, p, links[p].keys, links[p].vals)
  }

  /** The nodes had the links given, and the one at `at`, to tokens, has been taken away from its parent. */
  ghost predicate Popped<P(!new)>(nodes: map<Path, Node<P>>, tokens: Path, at: nat, links: map<Path, Links<P>>)
    requires tokens != []
    reads nodes.Values
  {
    && Up(tokens) in nodes && HungBy(nodes, links)
    && (forall p {:trigger nodes[p]} :: p in nodes ==>
          Links(nodes[p].keys, nodes[p].vals) == if p == Up(tokens) then LinksWithout(links[p], at) else links[p])
    && NoDup(links[Up(tokens)].keys)
    && at < |links[Up(tokens)].keys| && links[Up(tokens)].keys[at] == Last(tokens)
  }

  ghost function NotBelow<V>(m: map<Path, V>, tokens: Path): map<Path, V> {
    map p | p in m && !(tokens <= p) :: m[p]
  }

  /** tree_guts_type: the root node. The ghost map gives every node its token path. */
  class Guts<P(!new)> {
    const root: Node<P>
    ghost var nodes: map<Path, Node<P>>

    /** The i-th child of the node at p hangs at p extended by its key. */
    ghost predicate LinkedAt(p: Path, i: nat)
      requires p in nodes && i < |nodes[p].keys|
      reads this, nodes[p]
    {
      && i < |nodes[p].vals|
      && p + [nodes[p].keys[i]] in nodes
      && nodes[p + [nodes[p].keys[i]]] == nodes[p].vals[i]
    }

    /** Every node hangs where the map says, and its values are the nodes of its keys. */
    ghost predicate Linked()
      reads this, nodes.Values
    {
      && (forall p {:trigger nodes[p]} :: p in nodes ==>
            nodes[p].path == p && |nodes[p].keys| == |nodes[p].vals|)
      && (forall p, i {:trigger LinkedAt(p, i)} :: p in nodes && 0 <= i < |nodes[p].keys| ==> LinkedAt(p, i))
    }

    /** The links as they are. */
    ghost function AllLinks(): (links: map<Path, Links<P>>)
      requires Linked()
      reads this, nodes.Values
      ensures HungBy(nodes, links)
      ensures forall p :: p in nodes ==> links[p] == Links(nodes[p].keys, nodes[p].vals)
    {
      AllHang();
      map p | p in nodes :: Links(nodes[p].keys, nodes[p].vals)
    }

    lemma AllHang()
      requires Linked()
      ensures forall p :: p in nodes ==> Hang(nodes, p, nodes[p].keys, nodes[p].vals)
    {
      forall p | p in nodes ensures Hang(nodes, p, nodes[p].keys, nodes[p].vals) {
        forall i | 0 <= i < |nodes[p].keys| ensures HangsAt(nodes, p, nodes[p].keys, nodes[p].vals, i) {
          assert LinkedAt(p, i);
        }
      }
    }

    ghost predicate Valid()
      reads this, nodes.Values
    {
      [] in nodes && nodes[[]] == root && Linked() && WellFormed(View())
    }

    /** The abstract tree. */
    ghost function View(): State<P>
      reads this, nodes.Values
    {
      map p | p in nodes :: Entry(nodes[p].prop, nodes[p].keys)
    }

    lemma ViewIs(st: State<P>)
      requires forall p :: p in st <==> p in nodes
      requires forall p :: p in nodes ==> st[p] == Entry(nodes[p].prop, nodes[p].keys)
      ensures View() == st
    {}

    constructor ()
      ensures Valid() && View() == Empty()
      ensures fresh(nodes.Values)
    {
      root := new Node<P>([]);
      new;
      nodes := map[[] := root];
      JustRoot();
    }

    lemma JustRoot()
      requires nodes == map[[] := root] && root.path == [] && root.keys == [] && root.vals == [] && root.prop == None
      ensures Valid() && View() == Empty()
    {
      assert View() == Empty();
    }
  }

  /** property_tree_impl: the shared guts and the root prefix of this view. */
  class Tree<P(!new)> {
    const guts: Guts<P>
    const root: string

    /** property_tree::make */
    constructor ()
      ensures guts.Valid() && guts.View() == Empty() && root == ""
      ensures fresh(guts) && fresh(guts.nodes.Values)
    {
      guts := new Guts<P>();
      root := "";
    }

    constructor View(guts: Guts<P>, root: string)
      ensures this.guts == guts && this.root == root
    {
      this.guts := guts;
      this.root := root;
    }

    /** The token path an argument stands for. */
    ghost function Full(path: string): Path {
      Tokens(root) + Tokens(path)
    }

    /** subtree: the same guts behind a longer prefix. */
    method Subtree(path: string) returns (view: Tree<P>)
      ensures fresh(view) && view.guts == guts
      ensures Tokens(view.root) == Full(path)
      ensures forall p :: view.Full(p) == Full(path) + Tokens(p)
    {
      view := new Tree<P>.View(guts, Join(root, path));
      TokensOfJoin(root, path);
    }

    /** exists */
    method Exists(path: string) returns (found: bool)
      requires guts.Valid()
      ensures found <==> Full(path) in guts.View()
    {
      TokensOfJoin(root, path);
      var tokens := Tokens(Join(root, path));
      var node, _ := Walk(tokens);
      return node.Some?;
    }

    /** list */
    method ListKids(path: string) returns (r: Outcome<seq<string>>)
      requires guts.Valid()
      ensures r == List(guts.View(), Full(path))
    {
      TokensOfJoin(root, path);
      var node, _ := Walk(Tokens(Join(root, path)));
      if node == None {
        return PathNotFound;
      }
      return Done(node.value.keys);
    }

    /** _access */
    method AccessProp(path: string) returns (r: Outcome<P>)
      requires guts.Valid()
      ensures r == Access(guts.View(), Full(path))
    {
      TokensOfJoin(root, path);
      var node, _ := Walk(Tokens(Join(root, path)));
      if node == None {
        return PathNotFound;
      }
      if node.value.prop.None? {
        return Uninitialized;
      }
      return Done(node.value.prop.value);
    }

    /** One step of a walk: has_key, then operator[]. */
    method Child(ghost p: Path, node: Node<P>, name: string) returns (r: Option<Node<P>>)
      requires guts.Linked() && p in guts.nodes && node == guts.nodes[p]
      requires name in node.keys <==> p + [name] in guts.nodes
      ensures r.Some? <==> p + [name] in guts.nodes
      ensures r.Some? ==> r.value == guts.nodes[p + [name]]
    {
      var has := node.HasKey(name);
      if !has {
        return None;
      }
      var child := node.At(name);
      ghost var i :| 0 <= i < |node.keys| && node.keys[i] == name && node.vals[i] == child;
      assert guts.LinkedAt(p, i);
      return Some(child);
    }

    /** The walk from the root node along the tokens, keeping the last node but one. */
    method Walk(tokens: Path) returns (r: Option<Node<P>>, parent: Option<Node<P>>)
      requires guts.Valid()
      ensures r.Some? <==> tokens in guts.nodes
      ensures r.Some? ==> r.value == guts.nodes[tokens]
      ensures r.Some? ==> (parent == None <==> tokens == [])
      ensures r.Some? && tokens != [] ==> Up(tokens) in guts.nodes && parent.value == guts.nodes[Up(tokens)]
    {
      parent := None;
      var node := guts.root;
      assert tokens[..0] == [];
      for i := 0 to |tokens|
        invariant tokens[..i] in guts.nodes && node == guts.nodes[tokens[..i]]
        invariant i == 0 <==> parent == None
        invariant i > 0 ==> tokens[..i - 1] in guts.nodes && parent.value == guts.nodes[tokens[..i - 1]]
      {
        TakeStep(tokens, i);
        KidKnown(guts.View(), tokens[..i], tokens[i]);
        var child := Child(tokens[..i], node, tokens[i]);
        if child == None {
          if tokens in guts.View() {
            NothingBelow(guts.View(), tokens[..i + 1], tokens);
          }
          return None, None;
        }
        parent := Some(node);
        node := child.value;
      }
      assert tokens[..|tokens|] == tokens;
      return Some(node), parent;
    }

    /** remove: throws unless the path leads to a node other than the root and was written without a
        trailing slash. Whatever it throws, the tree is unchanged. */
    method Remove(path: string) returns (r: Outcome<()>)
      requires guts.Valid()
      modifies guts, guts.nodes.Values
      ensures guts.Valid()
      ensures guts.nodes.Values <= old(guts.nodes.Values)
      ensures (guts.View(), r) == PropertySpec.Remove(old(guts.View()), Full(path), path == "" || EndsInSlash(path))
    {
      var full := Join(root, path);
      TokensOfJoin(root, path);
      JoinEndsInSlash(root, path);
      var tokens := Tokens(full);
      var node, parent := Walk(tokens);
      if node == None {
        return PathNotFound;
      }
      if parent == None {
        return CannotUproot;
      }
      LeafNames(full);
      r := RemoveAt(tokens, parent.value, Leaf(full));
    }

    /** The removal of a node other than the root, from its parent. */
    method RemoveAt(ghost tokens: Path, parent: Node<P>, leaf: string) returns (r: Outcome<()>)
      requires guts.Valid() && tokens != [] && tokens in guts.nodes
      requires Up(tokens) in guts.nodes && parent == guts.nodes[Up(tokens)]
      requires leaf == "" || leaf == Last(tokens)
      modifies guts, guts.nodes.Values
      ensures guts.Valid()
      ensures guts.nodes.Values <= old(guts.nodes.Values)
      ensures (guts.View(), r) == PropertySpec.Remove(old(guts.View()), tokens, leaf == "")
    {
      UpAndLast(tokens, "");
      KidKnown(guts.View(), Up(tokens), Last(tokens));
      RemoveKeepsWellFormed(guts.View(), tokens, false);
      r := PopLeaf(tokens, parent, leaf);
    }

    /** The leaf of a path is its last token, or empty after a trailing slash. */
    lemma LeafNames(full: string)
      requires Tokens(full) != []
      ensures if EndsInSlash(full) then Leaf(full) == "" else Leaf(full) == Last(Tokens(full))
      ensures Last(Tokens(full)) != ""
    {
      TokensAreNames(full);
      assert Last(Tokens(full)) in Tokens(full);
      if !EndsInSlash(full) {
        LeafIsLastToken(full);
      }
    }

    /** A link that has survived the removal of a leaf and what hangs below it. The node at p had the keys and
        values given, all of which were links. */
    lemma StillLinkedAt(tokens: Path, was: map<Path, Node<P>>, at: nat, p: Path,
                        keys: seq<string>, vals: seq<Node<P>>, i: nat)
      requires tokens != [] && p in guts.nodes
      requires forall q :: q in guts.nodes <==> q in was && !(tokens <= q)
      requires forall q :: q in guts.nodes ==> guts.nodes[q] == was[q]
      requires Hang(was, p, keys, vals)
      requires if p == Up(tokens)
               then NoDup(keys) && at < |keys| && keys[at] == Last(tokens)
                    && guts.nodes[p].keys == keys[..at] + keys[at + 1..]
                    && guts.nodes[p].vals == vals[..at] + vals[at + 1..]
               else guts.nodes[p].keys == keys && guts.nodes[p].vals == vals
      requires i < |guts.nodes[p].keys|
      ensures guts.LinkedAt(p, i)
    {
      var j := if p == Up(tokens) && i >= at then i + 1 else i;
      assert HangsAt(was, p, keys, vals, j);
      assert guts.nodes[p].keys[i] == keys[j] && guts.nodes[p].vals[i] == vals[j];
      PrefixOfLonger(p, keys[j], tokens);
      UpAndLast(p, keys[j]);
      UpAndLast(tokens, "");
    }

    /** parent->pop(leaf), where the leaf is the last token or empty. */
    method PopLeaf(ghost tokens: Path, parent: Node<P>, leaf: string) returns (r: Outcome<()>)
      requires guts.Linked() && [] in guts.nodes && guts.nodes[[]] == guts.root
      requires tokens != [] && tokens in guts.nodes
      requires Up(tokens) in guts.nodes && parent == guts.nodes[Up(tokens)]
      requires NoDup(parent.keys) && "" !in parent.keys && Last(tokens) in parent.keys
      requires leaf == "" || leaf == Last(tokens)
      modifies guts, guts.nodes.Values
      ensures guts.Linked() && [] in guts.nodes && guts.nodes[[]] == guts.root
      ensures guts.nodes.Values <= old(guts.nodes.Values)
      ensures r == if leaf == "" then KeyNotFound else Done(())
      ensures guts.View() == if leaf == "" then old(guts.View()) else Pruned(old(guts.View()), tokens)
    {
      var ok, at, links := PopLink(tokens, parent, leaf);
      if !ok {
        return KeyNotFound;
      }
      PrunedInTwo(old(guts.View()), tokens);
      Forget(tokens, at, links);
      return Done(());
    }

    /** The pop itself, with the links there were before it. */
    method PopLink(ghost tokens: Path, parent: Node<P>, leaf: string)
      returns (ok: bool, ghost at: nat, ghost links: map<Path, Links<P>>)
      requires guts.Linked() && [] in guts.nodes && guts.nodes[[]] == guts.root
      requires tokens != [] && tokens in guts.nodes
      requires Up(tokens) in guts.nodes && parent == guts.nodes[Up(tokens)]
      requires NoDup(parent.keys) && "" !in parent.keys && Last(tokens) in parent.keys
      requires leaf == "" || leaf == Last(tokens)
      modifies parent`keys, parent`vals
      ensures ok == (leaf != "") && (!ok ==> guts.Linked() && guts.View() == old(guts.View()))
      ensures ok ==> Popped(guts.nodes, tokens, at, links)
      ensures ok ==> guts.View() == WithoutKid(old(guts.View()), tokens)
    {
      hide HungBy;
      links := guts.AllLinks();
      ok, at := parent.Pop(leaf);
      if ok {
        assert HungBy(guts.nodes, links);
        OneLeftOut(old(parent.keys), leaf, at);
        OthersHaveOtherPaths(parent, tokens, links);
        guts.ViewIs(WithoutKid(old(guts.View()), tokens));
      }
    }

    lemma OthersHaveOtherPaths(parent: Node<P>, tokens: Path, links: map<Path, Links<P>>)
      requires tokens != [] && Up(tokens) in guts.nodes && parent == guts.nodes[Up(tokens)] && HungBy(guts.nodes, links)
      ensures forall p :: p in guts.nodes && p != Up(tokens) ==> guts.nodes[p] != parent
    {}

    /** What hangs below a popped link is no part of the tree any more; the other links hold. */
    ghost method Forget(tokens: Path, at: nat, links: map<Path, Links<P>>)
      requires tokens != [] && [] in guts.nodes && guts.nodes[[]] == guts.root
      requires Popped(guts.nodes, tokens, at, links)
      modifies guts
      ensures guts.Linked() && [] in guts.nodes && guts.nodes[[]] == guts.root
      ensures guts.nodes.Values <= old(guts.nodes.Values)
      ensures guts.View() == NotBelow(old(guts.View()), tokens)
    {
      hide Popped;
      ghost var was := guts.nodes;
      guts.nodes := NotBelow(guts.nodes, tokens);
      LinkedStill(was, tokens, at, links);
    }

    lemma LinkedStill(was: map<Path, Node<P>>, tokens: Path, at: nat, links: map<Path, Links<P>>)
      requires tokens != [] && Popped(was, tokens, at, links) && guts.nodes == NotBelow(was, tokens)
      ensures guts.Linked()
    {
      forall p, i {:trigger guts.LinkedAt(p, i)} | p in guts.nodes && 0 <= i < |guts.nodes[p].keys|
        ensures guts.LinkedAt(p, i)
      {
        StillLinkedAt(tokens, was, at, p, links[p].keys, links[p].vals, i);
      }
    }

    ghost function WithoutKid(st: State<P>, tokens: Path): State<P>
      requires tokens != []
    {
      map p | p in st :: if p == Up(tokens) then st[p].(kids := Without(st[p].kids, Last(tokens))) else st[p]
    }

    lemma PrunedInTwo(st: State<P>, tokens: Path)
      requires tokens != []
      ensures NotBelow(WithoutKid(st, tokens), tokens) == Pruned(st, tokens)
    {}

    /** One step of creation: add the child if it is missing, then go to it. */
    method ChildOrNew(ghost p: Path, node: Node<P>, name: string) returns (child: Node<P>)
      requires guts.Linked() && p in guts.nodes && node == guts.nodes[p]
      requires name in node.keys <==> p + [name] in guts.nodes
      modifies guts, node
      ensures guts.Linked()
      ensures forall q :: q in guts.nodes ==>
                fresh(guts.nodes[q]) || (q in old(guts.nodes) && guts.nodes[q] == old(guts.nodes)[q])
      ensures guts.View() ==
              if p + [name] in old(guts.View()) then old(guts.View()) else WithChild(old(guts.View()), p, name)
      ensures p + [name] in guts.nodes && child == guts.nodes[p + [name]]
      ensures old(guts.nodes.Keys) <= guts.nodes.Keys
      ensures forall q :: q in old(guts.nodes) ==> guts.nodes[q] == old(guts.nodes)[q]
    {
      var known := Child(p, node, name);
      if known != None {
        return known.value;
      }
      child := AddNode(p, node, name);
    }

    /** (*node)[name] = node_type() */
    method AddNode(ghost p: Path, node: Node<P>, name: string) returns (child: Node<P>)
      requires guts.Linked() && p in guts.nodes && node == guts.nodes[p]
      requires name !in node.keys && p + [name] !in guts.nodes
      modifies guts, node
      ensures guts.Linked()
      ensures fresh(child) && guts.nodes == old(guts.nodes)[p + [name] := child]
      ensures guts.View() == WithChild(old(guts.View()), p, name)
    {
      child := new Node<P>(p + [name]);
      node.Add(name, child);
      guts.nodes := guts.nodes[p + [name] := child];
      forall q, i {:trigger guts.LinkedAt(q, i)} | q in guts.nodes && 0 <= i < |guts.nodes[q].keys|
        ensures guts.LinkedAt(q, i)
      {
        if q != p + [name] && !(q == p && i == |old(node.keys)|) {
          assert old(guts.LinkedAt(q, i));
        }
      }
      guts.ViewIs(WithChild(old(guts.View()), p, name));
    }

    /** _create */
    method Create(path: string, prop: P) returns (r: Outcome<()>)
      requires guts.Valid()
      modifies guts, guts.nodes.Values
      ensures guts.Valid()
      ensures fresh(guts.nodes.Values - old(guts.nodes.Values))
      ensures (guts.View(), r) == PropertySpec.Create(old(guts.View()), Full(path), prop)
    {
      TokensOfJoin(root, path);
      var tokens := Tokens(Join(root, path));
      TokensAreNames(Join(root, path));
      ghost var was := guts.View();
      var node := Grow(tokens);
      CreateKeepsWellFormed(was, tokens, prop);
      EnsureKeepsWellFormed(was, tokens);
      NewNodesAreBare(was, tokens);
      if node.prop.Some? {
        return AlreadyExists;
      }
      SetProp(tokens, node, prop);
      return Done(());
    }

    /** The state of a creation walk after i tokens: the tree is grown that far, and the walk is there. */
    ghost predicate GrownTo(was: State<P>, reached: Path, node: Node<P>)
      reads guts, guts.nodes.Values
    {
      && guts.Linked() && [] in guts.nodes && guts.nodes[[]] == guts.root
      && guts.View() == Ensure(was, reached)
      && reached in guts.nodes && node == guts.nodes[reached]
    }

    /** The walk of creation, which adds the nodes that are missing. */
    method Grow(tokens: Path) returns (node: Node<P>)
      requires guts.Valid() && IsNamePath(tokens)
      modifies guts, guts.nodes.Values
      ensures GrownTo(old(guts.View()), tokens, node)
      ensures fresh(guts.nodes.Values - old(guts.nodes.Values))
    {
      node := guts.root;
      ghost var was := guts.View();
      assert tokens[..0] == [];
      EnsurePresent(was, []);
      for i := 0 to |tokens|
        invariant GrownTo(was, tokens[..i], node)
        invariant forall q :: q in guts.nodes ==>
                  fresh(guts.nodes[q]) || (q in old(guts.nodes) && guts.nodes[q] == old(guts.nodes)[q])
      {
        node := GrowOne(was, tokens, i, node);
      }
      assert tokens[..|tokens|] == tokens;
    }

    method GrowOne(ghost was: State<P>, tokens: Path, i: nat, node: Node<P>) returns (child: Node<P>)
      requires WellFormed(was) && IsNamePath(tokens) && i < |tokens|
      requires GrownTo(was, tokens[..i], node)
      modifies guts, node
      ensures GrownTo(was, tokens[..i + 1], child)
      ensures forall q :: q in guts.nodes ==>
                fresh(guts.nodes[q]) || (q in old(guts.nodes) && guts.nodes[q] == old(guts.nodes)[q])
    {
      GrowStep(was, tokens, i);
      child := ChildOrNew(tokens[..i], node, tokens[i]);
    }

    lemma GrowStep(was: State<P>, tokens: Path, i: nat)
      requires WellFormed(was) && IsNamePath(tokens) && i < |tokens|
      ensures tokens[..i + 1] == tokens[..i] + [tokens[i]]
      ensures var e := Ensure(was, tokens[..i]);
              && tokens[..i] in e
              && (tokens[i] in e[tokens[..i]].kids <==> tokens[..i + 1] in e)
              && Ensure(was, tokens[..i + 1])
                 == if tokens[..i + 1] in e then e else WithChild(e, tokens[..i], tokens[i])
    {
      TakeStep(tokens, i);
      EnsureStep(was, tokens[..i], tokens[i]);
      EnsureKeepsWellFormed(was, tokens[..i]);
      KidKnown(Ensure(was, tokens[..i]), tokens[..i], tokens[i]);
    }

    /** A node that a walk has just added has no property, so only an old one can be in the way. */
    lemma NewNodesAreBare(was: State<P>, tokens: Path)
      requires WellFormed(was)
      ensures tokens in was ==> Ensure(was, tokens) == was
      ensures tokens !in was ==> tokens in Ensure(was, tokens) && Ensure(was, tokens)[tokens] == Entry(None, [])
    {
      InPrefixes(tokens, tokens);
      if tokens in was {
        EnsurePresent(was, tokens);
      }
    }

    method SetProp(ghost p: Path, node: Node<P>, prop: P)
      requires guts.Linked() && p in guts.nodes && node == guts.nodes[p]
      modifies node`prop
      ensures guts.Linked()
      ensures guts.View() == old(guts.View())[p := old(guts.View())[p].(prop := Some(prop))]
    {
      node.prop := Some(prop);
      forall q, i {:trigger guts.LinkedAt(q, i)} | q in guts.nodes && 0 <= i < |guts.nodes[q].keys|
        ensures guts.LinkedAt(q, i)
      {
        assert old(guts.LinkedAt(q, i));
      }
      assert guts.View() == old(guts.View())[p := old(guts.View())[p].(prop := Some(prop))];
    }
  }

  /** Any depth of nesting: the view stands for the concatenation of everything it was taken through. */
  method Nest<P(!new)>(tree: Tree<P>, paths: seq<string>) returns (view: Tree<P>)
    ensures view.guts == tree.guts
    ensures forall p :: view.Full(p) == Tokens(tree.root) + AllTokens(paths) + Tokens(p)
  {
    view := tree;
    for i := 0 to |paths|
      invariant view.guts == tree.guts
      invariant Tokens(view.root) == Tokens(tree.root) + AllTokens(paths[..i])
    {
      ghost var before := Tokens(view.root);
      view := view.Subtree(paths[i]);
      assert paths[..i + 1][..i] == paths[..i];
      assert before + Tokens(paths[i]) == Tokens(tree.root) + (AllTokens(paths[..i]) + Tokens(paths[i]));
    }
    assert paths[..|paths|] == paths;
  }

  /** A property created through one view is the property every other view reads at the same place. */
  method CreateHereReadThere<P(!new)>(here: Tree<P>, there: Tree<P>, p: string, q: string, prop: P)
      returns (made: Outcome<()>, read: Outcome<P>)
    requires here.guts == there.guts && here.guts.Valid()
    requires here.Full(p) == there.Full(q)
    modifies here.guts, here.guts.nodes.Values
    ensures made == Done(()) ==> read == Done(prop)
    ensures made != Done(()) ==> made == AlreadyExists && read == Access(old(here.guts.View()), here.Full(p))
  {
    made := here.Create(p, prop);
    read := there.AccessProp(q);
    CreateThenAccess(old(here.guts.View()), here.Full(p), prop);
  }

  /** A call as it is written: on the view that a list of subtree calls leads to, with a path as a string. */
  datatype Request<P> =
    | CreateAt(views: seq<string>, path: string, prop: P)
    | RemoveAt(views: seq<string>, path: string)
    | ExistsAt(views: seq<string>, path: string)
    | ListAt(views: seq<string>, path: string)
    | AccessAt(views: seq<string>, path: string)

  /** The same call on the map. */
  function Meaning<P>(root: Path, r: Request<P>): Call<P> {
    var full := root + AllTokens(r.views) + Tokens(r.path);
    match r
    case CreateAt(_, path, prop) => CallCreate(full, prop)
    case RemoveAt(_, path) => CallRemove(full, path == "" || EndsInSlash(path))
    case ExistsAt(_, _) => CallExists(full)
    case ListAt(_, _) => CallList(full)
    case AccessAt(_, _) => CallAccess(full)
  }

  function Meanings<P>(root: Path, requests: seq<Request<P>>): seq<Call<P>> {
    seq(|requests|, i requires 0 <= i < |requests| => Meaning(root, requests[i]))
  }

  /** A call that only reads. */
  method Looked<P(!new)>(view: Tree<P>, ghost root: Path, r: Request<P>) returns (answer: Answer<P>)
    requires view.guts.Valid() && !r.CreateAt? && !r.RemoveAt?
    requires view.Full(r.path) == root + AllTokens(r.views) + Tokens(r.path)
    ensures (view.guts.View(), answer) == StepCall(view.guts.View(), Meaning(root, r))
  {
    match r {
      case ExistsAt(_, path) =>
        var found := view.Exists(path);
        return Found(found);
      case ListAt(_, path) =>
        var kids := view.ListKids(path);
        return Kids(kids);
      case AccessAt(_, path) =>
        var prop := view.AccessProp(path);
        return Prop(prop);
    }
  }

  /** One call through a view taken for it. */
  method Answered<P(!new)>(tree: Tree<P>, r: Request<P>) returns (answer: Answer<P>)
    requires tree.guts.Valid()
    modifies tree.guts, tree.guts.nodes.Values
    ensures tree.guts.Valid() && fresh(tree.guts.nodes.Values - old(tree.guts.nodes.Values))
    ensures (tree.guts.View(), answer) == StepCall(old(tree.guts.View()), Meaning(Tokens(tree.root), r))
  {
    var view := Nest(tree, r.views);
    ghost var root := Tokens(tree.root);
    assert view.Full(r.path) == root + AllTokens(r.views) + Tokens(r.path);
    if r.CreateAt? {
      answer := Created(view, root, r);
    } else if r.RemoveAt? {
      answer := Removed(view, root, r);
    } else {
      answer := Looked(view, root, r);
    }
  }

  method Created<P(!new)>(view: Tree<P>, ghost root: Path, r: Request<P>) returns (answer: Answer<P>)
    requires view.guts.Valid() && r.CreateAt?
    requires view.Full(r.path) == root + AllTokens(r.views) + Tokens(r.path)
    modifies view.guts, view.guts.nodes.Values
    ensures view.guts.Valid() && fresh(view.guts.nodes.Values - old(view.guts.nodes.Values))
    ensures (view.guts.View(), answer) == StepCall(old(view.guts.View()), Meaning(root, r))
  {
    var outcome := view.Create(r.path, r.prop);
    answer := Changed(outcome);
  }

  method Removed<P(!new)>(view: Tree<P>, ghost root: Path, r: Request<P>) returns (answer: Answer<P>)
    requires view.guts.Valid() && r.RemoveAt?
    requires view.Full(r.path) == root + AllTokens(r.views) + Tokens(r.path)
    modifies view.guts, view.guts.nodes.Values
    ensures view.guts.Valid() && fresh(view.guts.nodes.Values - old(view.guts.nodes.Values))
    ensures (view.guts.View(), answer) == StepCall(old(view.guts.View()), Meaning(root, r))
  {
    var outcome := view.Remove(r.path);
    answer := Changed(outcome);
  }

  /** Any list of calls through any views answers exactly as the map does. */
  method AllAnswered<P(!new)>(tree: Tree<P>, requests: seq<Request<P>>) returns (answers: seq<Answer<P>>)
    requires tree.guts.Valid()
    modifies tree.guts, tree.guts.nodes.Values
    ensures tree.guts.Valid()
    ensures (tree.guts.View(), answers) == RunCalls(old(tree.guts.View()), Meanings(Tokens(tree.root), requests))
  {
    ghost var was, calls := tree.guts.View(), Meanings(Tokens(tree.root), requests);
    answers := [];
    RanNothing(was, calls);
    for i := 0 to |requests|
      invariant tree.guts.Valid() && fresh(tree.guts.nodes.Values - old(tree.guts.nodes.Values))
      invariant Ran(was, calls, i, tree.guts.View(), answers)
    {
      hide Ran, StepCall, WellFormed;
      RanOneMore(was, calls, i, tree.guts.View(), answers);
      var answer := Answered(tree, requests[i]);
      answers := answers + [answer];
    }
    RanAll(was, calls, tree.guts.View(), answers);
  }
}
