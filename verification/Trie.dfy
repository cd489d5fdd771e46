/** The radix trie as the server keeps it: nodes that are split and extended in place. A destructor is
    installed; the values handed to it are the result `released` of each method. */
module Trie {
  import opened Bytes
  import opened TrieSpec

  class Trie<V> {
    var key: string             // may be longer than the segment: a split leaves it as it is
    var value: Option<V>        // of the child that ends a key; NULL (None) in interior nodes
    var idx: int                // length of the segment, -1 if there is none
    var ch: char
    var children: seq<Trie<V>>

    ghost var node: Node<V>     // the node as a value
    ghost var Repr: set<Trie<V>>

    /** The child that ends a key. */
    ghost predicate IsEnd()
      reads this
    {
      ch == NUL && idx == -1 && children == [] && value.Some? && Repr == {this}
    }

    ghost function AsChild(): Child<V>
      reads this
      requires ch == NUL ==> value.Some?
    {
      if ch == NUL then End(value.value) else Edge(ch, node)
    }

    ghost predicate Valid()
      reads this, Repr
      decreases Repr, 0
      ensures Valid() ==> this in Repr
    {
      && this in Repr && value == None && -1 <= idx <= |key| && (idx == -1 ==> children == [])
      && node.seg == (if idx < 0 then "" else key[..idx])
      && |node.kids| == |children|
      && (forall i :: 0 <= i < |children| ==>
            && children[i] in Repr && children[i].Repr < Repr && this !in children[i].Repr
            && children[i].Is(node.kids[i]))
      && (forall i, j :: 0 <= i < j < |children| ==> children[i].Repr !! children[j].Repr)
    }

    /** What a child is as a value. */
    ghost predicate Is(kid: Child<V>)
      reads this, Repr
      decreases Repr, 1
    {
      this in Repr && (if ch == NUL then IsEnd() else Valid()) && kid == AsChild()
    }

    lemma Kid(i: nat)
      requires Valid() && i < |children|
      ensures var child := children[i];
              && child in Repr && child.Repr < Repr && child in child.Repr
              && (if child.ch == NUL then child.IsEnd() else child.Valid()) && node.kids[i] == child.AsChild()
    {
      assert children[i].Is(node.kids[i]);
    }

    /** initTrie: an empty trie. */
    constructor ()
      ensures Valid() && fresh(Repr) && ch == NUL && node == Build<V>([])
    {
      key, value, idx, ch, children := "", None, -1, NUL, [];
      node, Repr := Node("", []), {this};
    }

    /** initTrie for the child that ends a key. */
    constructor EndOfKey(v: V)
      ensures IsEnd() && fresh(Repr) && AsChild() == End(v)
    {
      key, value, idx, ch, children := "", Some(v), -1, NUL, [];
      node, Repr := Node("", []), {this};
    }

    /** addLeafToTrie for a new node. */
    constructor Leaf(ch: char, key: string, v: V)
      ensures Valid() && fresh(Repr) && this.ch == ch && node == Node(key, [End(v)])
    {
      this.key, value, idx, this.ch := key, None, |key|, ch;
      var end := new Trie.EndOfKey(v);
      children := [end];
      node, Repr := Node(key, [End(v)]), {this, end};
      new;
      assert key[..|key|] == key;
    }

    /** The lower half of a node that is split: takes over its children. */
    constructor LowerHalf(ch: char, key: string, children: seq<Trie<V>>, ghost node: Node<V>, ghost below: set<Trie<V>>)
      requires node.seg == key && |node.kids| == |children|
      requires forall i :: 0 <= i < |children| ==>
                 children[i] in below && children[i].Repr <= below && children[i].Is(node.kids[i])
      requires forall i, j :: 0 <= i < j < |children| ==> children[i].Repr !! children[j].Repr
      ensures Valid() && fresh(this) && Repr == {this} + below && this.ch == ch && this.node == node
    {
      this.key, value, idx, this.ch, this.children := key, None, |key|, ch, children;
      this.node, Repr := node, {this} + below;
      new;
      assert key[..|key|] == key;
    }

    /** A child for what is left of a key. */
    static method MakeKid(rest: string, v: V) returns (kid: Trie<V>)
      requires NUL !in rest
      ensures fresh(kid.Repr) && kid.Is(NewKid(rest, v)) && kid in kid.Repr
    {
      if rest == "" {
        kid := new Trie.EndOfKey(v);
      } else {
        assert rest[0] in rest;
        kid := new Trie.Leaf(rest[0], rest[1..], v);
      }
    }

    /** The key leaves this node's segment at its i-th character: the node is split there. */
    method Split(i: nat, rest: string, v: V)
      requires Valid() && 0 <= i < idx && key[i] != NUL && NUL !in rest
      modifies this
      ensures Valid() && fresh(Repr - old(Repr)) && ch == old(ch)
      ensures node == var split := SplitNode(old(node), i); Node(split.seg, split.kids + [NewKid(rest, v)])
    {
      hide Is, NewKid;
      SplitParts(node, i);
      assert key[..i] == node.seg[..i] && key[i] == node.seg[i];
      var lower := Lower(i);
      var kid := MakeKid(rest, v);
      Fork(i, lower, Edge(key[i], Node(node.seg[i + 1..], node.kids)), kid, NewKid(rest, v));
    }

    /** Keeps the front of the segment, and gets two children in place of all the others. */
    method Fork(i: nat, lower: Trie<V>, ghost below: Child<V>, kid: Trie<V>, ghost leaf: Child<V>)
      requires i <= |key| && value == None && lower.Is(below) && kid.Is(leaf)
      requires lower in lower.Repr && kid in kid.Repr
      requires this !in lower.Repr && this !in kid.Repr && lower.Repr !! kid.Repr
      modifies this
      ensures Valid() && Repr == {this} + lower.Repr + kid.Repr && ch == old(ch)
      ensures node == Node(old(key)[..i], [below, leaf])
    {
      hide Is;
      idx := i;
      children := [lower, kid];
      node := Node(key[..i], [below, leaf]);
      Repr := {this} + lower.Repr + kid.Repr;
    }

    method Lower(i: nat) returns (lower: Trie<V>)
      requires Valid() && i < idx && key[i] != NUL
      ensures fresh(lower) && lower.Repr == {lower} + (Repr - {this})
      ensures lower.Is(Edge(key[i], Node(node.seg[i + 1..], node.kids)))
    {
      hide Is;
      assert key[i + 1..idx] == node.seg[i + 1..];
      lower := new Trie<V>.LowerHalf(key[i], key[i + 1..idx], children, Node(node.seg[i + 1..], node.kids),
                                     Repr - {this});
      IsEdge(lower);
    }

    static lemma IsEdge(child: Trie<V>)
      requires child.Valid() && child.ch != NUL
      ensures child.Is(Edge(child.ch, child.node))
    {
    }

    /** A child is added at the end of the list. */
    method Append(rest: string, v: V)
      requires Valid() && 0 <= idx && NUL !in rest
      modifies this
      ensures Valid() && fresh(Repr - old(Repr)) && ch == old(ch)
      ensures node == Node(old(node).seg, old(node).kids + [NewKid(rest, v)])
    {
      var kid := MakeKid(rest, v);
      children := children + [kid];
      node := Node(node.seg, node.kids + [NewKid(rest, v)]);
      Repr := Repr + kid.Repr;
    }

    /** The key is there already: its value is handed to the destructor and replaced. */
    method Overwrite(i: nat, v: V) returns (released: seq<V>)
      requires Valid() && i < |children| && children[i].ch == NUL && node.kids[i].End?
      modifies this, children[i]
      ensures Valid() && Repr == old(Repr) && ch == old(ch)
      ensures released == [old(node).kids[i].value] && node == Node(old(node).seg, old(node).kids[i := End(v)])
    {
      Kid(i);
      released := [children[i].value.value];
      children[i].value := Some(v);
      node := Node(node.seg, node.kids[i := End(v)]);
    }

    /** addLeafToTrie for the first key of an empty trie. */
    method AddFirst(key: string, v: V)
      requires Valid() && children == [] && ch == NUL
      modifies this
      ensures Valid() && fresh(Repr - old(Repr)) && ch == NUL && node == Node(key, [End(v)])
    {
      var end := new Trie.EndOfKey(v);
      this.key, idx, children := key, |key|, [end];
      node, Repr := Node(key, [End(v)]), Repr + {end};
      assert key[..|key|] == key;
    }

    /** The insertion continues in a child. */
    method AddBelow(i: nat, key: string, v: V) returns (released: seq<V>)
      requires Valid() && WF(node) && i < |children| && children[i].ch != NUL && node.kids[i].Edge? && NUL !in key
      modifies Repr
      ensures Valid() && fresh(Repr - old(Repr)) && ch == old(ch)
      ensures var kid := old(node).kids[i];
              && node == Node(old(node).seg, old(node).kids[i := Edge(kid.ch, Insert(kid.node, key, v))])
              && released == Replaced(kid.node, key)
      decreases Repr, 0
    {
      var child := children[i];
      Kid(i);
      assert WFKid(node.kids[i]) && WF(child.node) && child.children != [];
      hide Is, WF, WFKid, Insert, Replaced;
      ghost var kids := node.kids;
      released := child.Add(key, v);
      ghost var kid := Edge(child.ch, child.node);
      IsEdge(child);
      node := Node(node.seg, kids[i := kid]);
      Repr := Repr + child.Repr;
    }

    /** Where a key leaves the segment of this node. */
    method FindMismatch(key: string) returns (i: nat)
      requires -1 <= idx <= |this.key|
      ensures idx < 0 ==> i == 0
      ensures 0 <= idx ==> i == Mismatch(key, this.key[..idx], 0)
    {
      i := 0;
      while i < idx
        invariant 0 <= i && (idx < 0 ==> i == 0)
        invariant (0 <= idx ==> i <= idx && Mismatch(key, this.key[..idx], 0) == Mismatch(key, this.key[..idx], i))
      {
        if CharAt(key, i) != this.key[i] {
          return;
        }
        i := i + 1;
      }
    }

    /** The first child with a label, or the number of children. */
    method FindChild(c: char) returns (i: nat)
      requires Valid()
      ensures i <= |children|
      ensures KidIndex(node.kids, c) == if i < |children| then i else -1
    {
      i := 0;
      while i < |children|
        invariant 0 <= i <= |children| && forall k :: 0 <= k < i ==> Label(node.kids[k]) != c
      {
        Kid(i);
        assert Label(node.kids[i]) == children[i].ch;
        if c == children[i].ch {
          return;
        }
        i := i + 1;
      }
    }

    /** addToTrie. */
    method Add(key: string, v: V) returns (released: seq<V>)
      requires Valid() && WF(node) && NUL !in key
      requires children == [] ==> ch == NUL
      modifies Repr
      ensures Valid() && fresh(Repr - old(Repr)) && ch == old(ch)
      ensures node == Insert(old(node), key, v) && released == Replaced(old(node), key)
      decreases Repr, 2
    {
      released := [];
      if |children| == 0 {
        AddFirst(key, v);
        return;
      }
      var i := FindMismatch(key);
      ghost var n := node;
      MismatchWithin(key, n.seg);
      var rest := From(key, i);
      assert forall c :: c in rest ==> c in key;
      if i < idx {
        assert n.seg[i] in n.seg;
        Split(i, rest, v);
        return;
      }
      released := AddToKids(rest, v);
    }

    /** The key goes through this node. */
    method AddToKids(rest: string, v: V) returns (released: seq<V>)
      requires Valid() && WF(node) && NUL !in rest && children != []
      modifies Repr
      ensures Valid() && fresh(Repr - old(Repr)) && ch == old(ch)
      ensures node == Node(old(node).seg, InsertIn(old(node).kids, rest, v))
      ensures released == ReplacedIn(old(node).kids, rest)
      decreases Repr, 1
    {
      released := [];
      var j := FindChild(CharAt(rest, 0));
      if j < |children| {
        Kid(j);
        if children[j].ch != NUL {
          assert forall c :: c in From(rest, 1) ==> c in rest;
          released := AddBelow(j, From(rest, 1), v);
        } else {
          released := Overwrite(j, v);
        }
      } else {
        Append(rest, v);
      }
    }

    /** getFromTrie. With `wantDiff`, a key that is not stored is answered with its longest stored
        prefix, and `diff` is the position just behind that; otherwise only the exact key counts. */
    method Get(query: string, wantDiff: bool) returns (value: Option<V>, diff: Option<nat>)
      requires Valid() && WF(node) && NUL !in query
      ensures !wantDiff ==> value == Find(node, query) && diff == None
      ensures wantDiff ==>
                match Longest(node, query)
                case None => value == None && diff == None
                case Some(Match(length, v)) => value == Some(v) && diff == Some(length)
    {
      hide Ahead, Find, Longest;
      var trie: Trie<V>, pos: nat := this, 0;
      var partial: Option<Match<V>> := None;
      ghost var longest, exact := Longest(node, query), Find(node, query);
      StartWalk(node, query);
      while true
        invariant trie in Repr && trie.Valid() && WF(trie.node) && pos <= |query|
        invariant longest == Ahead(trie.node, query, pos, partial) && exact == Find(trie.node, query[pos..])
        decreases trie.Repr
      {
        var child, next, passed, arrived := trie.Turn(query, pos, partial);
        if child == null {
          value, diff := Fallback(wantDiff, passed);
          return;
        }
        if arrived {
          value, diff := child.value, if wantDiff then Some(next) else None;
          return;
        }
        trie, pos, partial := child, next + 1, passed;
      }
    }

    /** One step of the walk: the segment, then a child. */
    method Turn(query: string, pos: nat, partial: Option<Match<V>>)
      returns (child: Trie?<V>, next: nat, passed: Option<Match<V>>, arrived: bool)
      requires Valid() && WF(node) && NUL !in query && pos <= |query|
      ensures child == null ==> Ahead(node, query, pos, partial) == passed && Find(node, query[pos..]) == None
      ensures child != null && arrived ==>
                && child.value.Some? && Ahead(node, query, pos, partial) == Some(Match(next, child.value.value))
                && Find(node, query[pos..]) == child.value
      ensures child != null && !arrived ==>
                && child in Repr && child.Valid() && WF(child.node) && child.Repr < Repr && next < |query|
                && Ahead(node, query, pos, partial) == Ahead(child.node, query, next + 1, passed)
                && Find(node, query[pos..]) == Find(child.node, query[next + 1..])
    {
      next := pos;
      if idx > 0 {
        if !(key[..idx] <= query[pos..]) {
          return null, next, partial, false;
        }
        next := pos + idx;
      }
      assert node.seg == query[pos..next];
      hide Ahead, Find, WF;
      child, passed, arrived := TurnBehind(query, pos, next, partial);
    }

    /** One step of the walk behind a segment that matches: no child, the child that ends the query, or
        the child to go on with. */
    method TurnBehind(query: string, pos: nat, next: nat, partial: Option<Match<V>>)
      returns (child: Trie?<V>, passed: Option<Match<V>>, arrived: bool)
      requires Valid() && WF(node) && NUL !in query
      requires pos <= next == pos + |node.seg| <= |query| && node.seg == query[pos..next]
      ensures child == null ==> Ahead(node, query, pos, partial) == passed && Find(node, query[pos..]) == None
      ensures child != null && arrived ==>
                && child.value.Some? && Ahead(node, query, pos, partial) == Some(Match(next, child.value.value))
                && Find(node, query[pos..]) == child.value
      ensures child != null && !arrived ==>
                && child in Repr && child.Valid() && WF(child.node) && child.Repr < Repr && next < |query|
                && Ahead(node, query, pos, partial) == Ahead(child.node, query, next + 1, passed)
                && Find(node, query[pos..]) == Find(child.node, query[next + 1..])
    {
      var i;
      i, passed := ScanChildren(query, next, partial);
      arrived := next == |query|;
      if i == |children| {
        WalkStops(node, query, pos, next, partial);
        return null, passed, arrived;
      }
      child := children[i];
      Kid(i);
      assert WFKid(node.kids[i]);
      if arrived {
        WalkArrives(node, query, pos, next, partial, i);
      } else {
        assert query[next] in query;
        WalkDescends(node, query, pos, next, partial, i);
      }
    }

    /** The answer if the walk cannot go on. */
    method Fallback(wantDiff: bool, partial: Option<Match<V>>) returns (value: Option<V>, diff: Option<nat>)
      ensures (value, diff) == if wantDiff && partial.Some? then (Some(partial.value.value), Some(partial.value.length))
                               else (None, None)
    {
      if wantDiff && partial.Some? {
        value, diff := Some(partial.value.value), Some(partial.value.length);
      } else {
        value, diff := None, None;
      }
    }

    /** The child to go on with, or the number of children; on the way, the end of a key that is passed
        is remembered, whether it comes before that child or after it. */
    method ScanChildren(query: string, pos: nat, partial: Option<Match<V>>) returns (i: nat, passed: Option<Match<V>>)
      requires Valid() && WF(node) && pos <= |query| && NUL !in query
      ensures i <= |children|
      ensures KidIndex(node.kids, CharAt(query, pos)) == if i < |children| then i else -1
      ensures pos < |query| || i == |children| ==> passed == Pass(node.kids, pos, partial)
    {
      hide Pass, KidIndex, Is;
      ghost var c := CharAt(query, pos);
      StartPass(node.kids, pos, partial);
      assert pos < |query| ==> query[pos] in query;
      passed, i := partial, 0;
      while i < |children|
        invariant 0 <= i <= |children| && forall k :: 0 <= k < i ==> Label(node.kids[k]) != c
        invariant passed == Pass(node.kids[..i], pos, partial)
      {
        Kid(i);
        assert WFKid(node.kids[i]);
        PassNext(node.kids, i, pos, partial);
        if CharAt(query, pos) == children[i].ch {
          if pos < |query| {
            passed := LaterEnd(i + 1, pos, passed);
          }
          return;
        }
        if children[i].ch == NUL {
          passed := Some(Match(pos, children[i].value.value));
        }
        i := i + 1;
      }
      assert node.kids[..|children|] == node.kids;
    }

    /** Looks for the end of a key among the remaining children. */
    method LaterEnd(start: nat, pos: nat, partial: Option<Match<V>>) returns (passed: Option<Match<V>>)
      requires Valid() && WF(node) && start <= |children|
      ensures forall p :: partial == Pass(node.kids[..start], pos, p) ==> passed == Pass(node.kids, pos, p)
    {
      passed := partial;
      var j := start;
      while j < |children|
        invariant start <= j <= |children|
        invariant forall p :: partial == Pass(node.kids[..start], pos, p) ==> passed == Pass(node.kids[..j], pos, p)
      {
        Kid(j);
        assert WFKid(node.kids[j]);
        forall p { PassNext(node.kids, j, pos, p); }
        if children[j].ch == NUL {
          passed := Some(Match(pos, children[j].value.value));
          forall p { PassFound(node.kids, j, pos, p); }
          return;
        }
        j := j + 1;
      }
      assert node.kids[..|children|] == node.kids;
    }

    /** destroyTrie: hands every stored value to the destructor. */
    method Destroy() returns (released: seq<V>)
      requires Valid() && WF(node)
      ensures released == Values(node)
      decreases Repr
    {
      released := [];
      for i := 0 to |children|
        invariant released == ValuesIn(node.kids[..i])
      {
        var child := children[i];
        Kid(i);
        assert WFKid(node.kids[i]);
        ValuesNext(node.kids, i);
        if child.ch == NUL {
          released := released + [child.value.value];
        } else {
          assert child.value == None;
          var below := child.Destroy();
          released := released + below;
        }
      }
      assert node.kids[..|children|] == node.kids;
    }
  }

  lemma SplitParts<V>(n: Node<V>, i: nat)
    requires i < |n.seg|
    ensures SplitNode(n, i) == Node(n.seg[..i], [Edge(n.seg[i], Node(n.seg[i + 1..], n.kids))])
  {
  }

  lemma IndexNext<V>(kids: seq<Child<V>>, i: nat, c: char)
    requires i < |kids|
    ensures var a, b := KidIndex(kids[..i], c), KidIndex(kids[..i + 1], c);
            b == if 0 <= a then a else if Label(kids[i]) == c then i else -1
  {
    hide KidIndex, Label;
    var a, b := KidIndex(kids[..i], c), KidIndex(kids[..i + 1], c);
    assert kids[..i + 1][i] == kids[i];
    assert forall k :: 0 <= k < i ==> kids[..i + 1][k] == kids[..i][k];
  }

  lemma PassNext<V>(kids: seq<Child<V>>, i: nat, pos: nat, partial: Option<Match<V>>)
    requires WFKids(kids) && i < |kids|
    ensures Pass(kids[..i + 1], pos, partial)
         == if kids[i].End? then Some(Match(pos, kids[i].value)) else Pass(kids[..i], pos, partial)
  {
    hide WFKid, KidIndex;
    IndexNext(kids, i, NUL);
    assert WFKid(kids[i]);
    NoEarlierEnd(kids, i);
  }

  lemma NoEarlierEnd<V>(kids: seq<Child<V>>, i: nat)
    requires WFKids(kids) && i < |kids|
    ensures kids[i].End? <==> Label(kids[i]) == NUL
    ensures kids[i].End? ==> KidIndex(kids[..i], NUL) < 0
  {
    hide KidIndex;
    assert WFKid(kids[i]);
  }

  lemma StartPass<V>(kids: seq<Child<V>>, pos: nat, partial: Option<Match<V>>)
    ensures Pass(kids[..0], pos, partial) == partial
  {
  }

  lemma PassFound<V>(kids: seq<Child<V>>, j: nat, pos: nat, partial: Option<Match<V>>)
    requires WFKids(kids) && j < |kids| && kids[j].End?
    ensures Pass(kids, pos, partial) == Some(Match(pos, kids[j].value))
  {
    KidUnique(kids, j);
  }

  /** Builds a trie by any sequence of insertions, looks nothing up, and destroys it: the destructor gets
      every value exactly once. */
  method BuildAndDestroy<V>(entries: seq<Entry<V>>) returns (released: seq<V>)
    requires ProperKeys(entries)
    ensures multiset(released) == multiset(AllInserted(entries))
  {
    var trie := new Trie<V>();
    released := [];
    assert entries[..0] == [];
    hide Insert, Find, Values;
    for i := 0 to |entries|
      invariant trie.Valid() && trie.ch == NUL && fresh(trie.Repr)
      invariant trie.node == Build(entries[..i]) && released == AllReplaced(entries[..i])
      invariant WF(trie.node)
    {
      assert entries[..i + 1][..i] == entries[..i];
      InsertFind(trie.node, entries[i].key, entries[i].value, "");
      var gone := trie.Add(entries[i].key, entries[i].value);
      released := released + gone;
    }
    assert entries[..|entries|] == entries;
    var rest := trie.Destroy();
    released := released + rest;
    ReleasedOnce(entries);
  }
}
