/** The radix trie as a value: what it stores, and what an insertion does to it. */
module TrieSpec {
  import opened Bytes

  /** A node owns a segment of the keys that pass through it. Its children are labelled with the next
      character; the child that ends a key has the label NUL and holds the value. */
  datatype Node<V> = Node(seg: string, kids: seq<Child<V>>)
  datatype Child<V> = End(value: V) | Edge(ch: char, node: Node<V>)

  function Label<V>(kid: Child<V>): char
  {
    if kid.End? then NUL else kid.ch
  }

  /** The character of a NUL-terminated string. */
  function CharAt(key: string, i: nat): char
  {
    if i < |key| then key[i] else NUL
  }

  /** What is left of a key behind its first `i` characters. */
  function From(key: string, i: nat): string
  {
    if i <= |key| then key[i..] else ""
  }

  /** The first child with a label, or -1. */
  function KidIndex<V>(kids: seq<Child<V>>, c: char): (i: int)
    ensures -1 <= i < |kids|
    ensures 0 <= i ==> Label(kids[i]) == c
    ensures forall k :: 0 <= k < (if i < 0 then |kids| else i) ==> Label(kids[k]) != c
  {
    if kids == [] then -1
    else if Label(kids[0]) == c then 0
    else
      var i := KidIndex(kids[1..], c);
      assert forall k :: 1 <= k < |kids| ==> kids[k] == kids[1..][k - 1];
      if i < 0 then -1 else i + 1
  }

  /** Where a key leaves a segment, or the length of the segment. */
  function Mismatch(key: string, seg: string, from: nat): (i: nat)
    requires from <= |seg|
    ensures from <= i <= |seg|
    ensures forall k :: from <= k < i ==> CharAt(key, k) == seg[k]
    ensures i < |seg| ==> CharAt(key, i) != seg[i]
    decreases |seg| - from
  {
    if from < |seg| && CharAt(key, from) == seg[from] then Mismatch(key, seg, from + 1) else from
  }

  predicate WF<V>(n: Node<V>)
  {
    NUL !in n.seg && WFKids(n.kids)
  }

  predicate WFKids<V>(kids: seq<Child<V>>)
  {
    && (forall i, j :: 0 <= i < j < |kids| ==> Label(kids[i]) != Label(kids[j]))
    && (forall i :: 0 <= i < |kids| ==> WFKid(kids[i]))
  }

  predicate WFKid<V>(kid: Child<V>)
  {
    kid.Edge? ==> kid.ch != NUL && kid.node.kids != [] && WF(kid.node)
  }

  /** The value stored under exactly this key. */
  function Find<V>(n: Node<V>, key: string): Option<V>
  {
    if n.seg <= key then FindIn(n.kids, key[|n.seg|..]) else None
  }

  function FindIn<V>(kids: seq<Child<V>>, rest: string): Option<V>
  {
    var j := KidIndex(kids, CharAt(rest, 0));
    if j < 0 then None else FindKid(kids[j], rest)
  }

  function FindKid<V>(kid: Child<V>, rest: string): Option<V>
  {
    if kid.End? then Some(kid.value) else Find(kid.node, From(rest, 1))
  }

  /** A child for what is left of a key. */
  function NewKid<V>(rest: string, v: V): Child<V>
  {
    if rest == "" then End(v) else Edge(rest[0], Node(rest[1..], [End(v)]))
  }

  /** A node split in front of the i-th character of its segment. */
  function SplitNode<V>(n: Node<V>, i: nat): Node<V>
    requires i < |n.seg|
  {
    Node(n.seg[..i], [Edge(n.seg[i], Node(n.seg[i + 1..], n.kids))])
  }

  function Insert<V>(n: Node<V>, key: string, v: V): Node<V>
  {
    if n.kids == [] then Node(key, [End(v)])
    else
      var i := Mismatch(key, n.seg, 0);
      if i < |n.seg| then
        var split := SplitNode(n, i);
        Node(split.seg, split.kids + [NewKid(From(key, i), v)])
      else
        Node(n.seg, InsertIn(n.kids, From(key, i), v))
  }

  function InsertIn<V>(kids: seq<Child<V>>, rest: string, v: V): seq<Child<V>>
  {
    var j := KidIndex(kids, CharAt(rest, 0));
    if j < 0 then kids + [NewKid(rest, v)] else kids[j := InsertKid(kids[j], rest, v)]
  }

  function InsertKid<V>(kid: Child<V>, rest: string, v: V): Child<V>
  {
    if kid.End? then End(v) else Edge(kid.ch, Insert(kid.node, From(rest, 1), v))
  }

  /** The value an insertion replaces, as a list of at most one element. */
  function Replaced<V>(n: Node<V>, key: string): seq<V>
  {
    if n.kids == [] || Mismatch(key, n.seg, 0) < |n.seg| then [] else ReplacedIn(n.kids, From(key, |n.seg|))
  }

  function ReplacedIn<V>(kids: seq<Child<V>>, rest: string): seq<V>
  {
    var j := KidIndex(kids, CharAt(rest, 0));
    if j < 0 then [] else ReplacedKid(kids[j], rest)
  }

  function ReplacedKid<V>(kid: Child<V>, rest: string): seq<V>
  {
    if kid.End? then [kid.value] else Replaced(kid.node, From(rest, 1))
  }

  // ---- Insertion agrees with a finite map ----

  lemma MismatchWithin(key: string, seg: string)
    requires NUL !in seg
    ensures Mismatch(key, seg, 0) <= |key|
    ensures Mismatch(key, seg, 0) == |seg| <==> seg <= key
  {
    var i := Mismatch(key, seg, 0);
    assert forall k :: 0 <= k < i ==> CharAt(key, k) == seg[k] && seg[k] in seg;
    assert CharAt(key, |key|) == NUL;
    if i == |seg| {
      assert forall k :: 0 <= k < |seg| ==> CharAt(key, k) == key[k] == seg[k];
    }
  }

  lemma KidUnique<V>(kids: seq<Child<V>>, i: nat)
    requires i < |kids| && WFKids(kids)
    ensures KidIndex(kids, Label(kids[i])) == i
  {
  }

  /** A key that goes through a node. */
  lemma FindThrough<V>(n: Node<V>, rest: string)
    ensures Find(n, n.seg + rest) == FindIn(n.kids, rest)
  {
    assert (n.seg + rest)[|n.seg|..] == rest;
  }

  lemma OneKid<V>(kid: Child<V>, rest: string)
    ensures FindIn([kid], rest) == if Label(kid) == CharAt(rest, 0) then FindKid(kid, rest) else None
  {
    assert [kid][0] == kid;
  }

  lemma SingletonFind<V>(key: string, v: V, k: string)
    requires NUL !in key && NUL !in k
    ensures WF(Node(key, [End(v)])) && Find(Node(key, [End(v)]), k) == if k == key then Some(v) else None
  {
    var n := Node(key, [End(v)]);
    assert WFKid(n.kids[0]);
    if key <= k {
      var rest := k[|key|..];
      assert k == key + rest;
      OneKid(n.kids[0], rest);
      FindThrough(n, rest);
      assert rest != "" ==> rest[0] in k;
    }
  }

  lemma NewKidFind<V>(rest: string, v: V, k: string)
    requires NUL !in rest && NUL !in k
    ensures WFKid(NewKid(rest, v)) && Label(NewKid(rest, v)) == CharAt(rest, 0)
    ensures CharAt(k, 0) == CharAt(rest, 0) ==> FindKid(NewKid(rest, v), k) == if k == rest then Some(v) else None
  {
    if rest != "" {
      assert rest[0] in rest;
      assert forall c :: (c in rest[1..] ==> c in rest) && (c in From(k, 1) ==> c in k);
      SingletonFind(rest[1..], v, From(k, 1));
      if k != "" && k[0] == rest[0] {
        assert k == [k[0]] + k[1..] && rest == [rest[0]] + rest[1..];
      }
    } else if k != "" {
      assert k[0] in k;
    }
  }

  /** A child is added for a label that does not occur yet. */
  lemma AppendFind<V>(kids: seq<Child<V>>, rest: string, v: V, k: string)
    requires WFKids(kids) && NUL !in rest && NUL !in k && KidIndex(kids, CharAt(rest, 0)) < 0
    ensures var kids' := kids + [NewKid(rest, v)];
            WFKids(kids') && FindIn(kids', k) == if k == rest then Some(v) else FindIn(kids, k)
  {
    var kid := NewKid(rest, v);
    var kids' := kids + [kid];
    NewKidFind(rest, v, k);
    var j := KidIndex(kids', CharAt(k, 0));
    if CharAt(k, 0) == CharAt(rest, 0) {
      assert Label(kids'[|kids|]) == CharAt(rest, 0);
      assert j == |kids|;
    } else if 0 <= j {
      assert j < |kids|;
      KidUnique(kids, j);
    } else {
      assert forall i :: 0 <= i < |kids| ==> kids'[i] == kids[i];
    }
  }

  /** A child is replaced by one with the same label. */
  lemma ReplaceFind<V>(kids: seq<Child<V>>, j: nat, kid: Child<V>, k: string)
    requires WFKids(kids) && j < |kids| && WFKid(kid) && Label(kid) == Label(kids[j])
    ensures var kids' := kids[j := kid];
            && WFKids(kids')
            && FindIn(kids', k) == if CharAt(k, 0) == Label(kid) then FindKid(kid, k) else FindIn(kids, k)
  {
    var kids' := kids[j := kid];
    assert forall i :: 0 <= i < |kids| ==> Label(kids'[i]) == Label(kids[i]);
    var i := KidIndex(kids, CharAt(k, 0));
    if 0 <= i {
      KidUnique(kids, i);
      KidUnique(kids', i);
    }
    if CharAt(k, 0) == Label(kid) {
      KidUnique(kids', j);
    }
  }

  lemma SplitWF<V>(n: Node<V>, i: nat)
    requires WF(n) && n.kids != [] && i < |n.seg|
    ensures WF(SplitNode(n, i))
    ensures n.seg == SplitNode(n, i).seg + ([n.seg[i]] + n.seg[i + 1..])
  {
    var s := SplitNode(n, i);
    assert n.seg[i] in n.seg;
    assert forall c :: c in n.seg[..i] || c in n.seg[i + 1..] ==> c in n.seg;
    assert WF(s.kids[0].node) && WFKid(s.kids[0]);
  }

  /** Splitting a node does not change what is found. */
  lemma SplitFind<V>(n: Node<V>, i: nat, k: string)
    requires i < |n.seg|
    requires NUL !in n.seg
    requires n.seg == SplitNode(n, i).seg + ([n.seg[i]] + n.seg[i + 1..])
    ensures Find(SplitNode(n, i), k) == Find(n, k)
  {
    var s := SplitNode(n, i);
    var kid := s.kids[0];
    assert n.seg[i] in n.seg;
    if s.seg <= k {
      var rest := k[i..];
      assert k == s.seg + rest;
      FindThrough(s, rest);
      OneKid(kid, rest);
      if CharAt(rest, 0) == kid.ch {
        assert rest == [kid.ch] + rest[1..];
        SplitBelow(n, i, kid.node, rest[1..]);
      } else {
        PrefixAt(n.seg, k, i);
      }
    } else {
      assert n.seg <= k ==> s.seg <= n.seg;
    }
  }

  lemma PrefixAt(p: string, s: string, i: nat)
    requires i < |p|
    ensures p <= s ==> i < |s| && s[i] == p[i]
  {
  }

  lemma PrefixTail(p: string, s: string, i: nat)
    requires i <= |p|
    ensures p <= s ==> i <= |s| && p[i..] <= s[i..]
  {
  }

  lemma PrefixOfPrefix(p: string, s: string, i: nat)
    requires i <= |s|
    ensures p <= s[..i] ==> p <= s
  {
  }

  lemma SplitBelow<V>(n: Node<V>, i: nat, below: Node<V>, rest: string)
    requires i < |n.seg| && below == Node(n.seg[i + 1..], n.kids)
    ensures Find(below, rest) == Find(n, n.seg[..i] + ([n.seg[i]] + rest))
  {
    var k := n.seg[..i] + ([n.seg[i]] + rest);
    assert n.seg == n.seg[..i] + ([n.seg[i]] + below.seg);
    if below.seg <= rest {
      var t := rest[|below.seg|..];
      assert rest == below.seg + t;
      assert k == n.seg + t;
      FindThrough(n, t);
    } else {
      PrefixTail(n.seg, k, i + 1);
      assert k[i + 1..] == rest;
    }
  }

  lemma {:induction false} InsertInFind<V>(kids: seq<Child<V>>, rest: string, v: V, k: string)
    requires WFKids(kids) && NUL !in rest && NUL !in k
    ensures var kids' := InsertIn(kids, rest, v);
            WFKids(kids') && kids' != [] && FindIn(kids', k) == if k == rest then Some(v) else FindIn(kids, k)
  {
    var j := KidIndex(kids, CharAt(rest, 0));
    if j < 0 {
      AppendFind(kids, rest, v, k);
    } else {
      assert WFKid(kids[j]);
      InsertKidFind(kids[j], rest, v, k);
      ReplaceFind(kids, j, InsertKid(kids[j], rest, v), k);
      if CharAt(k, 0) == CharAt(rest, 0) {
        KidUnique(kids, j);
      }
    }
  }

  lemma {:induction false} InsertKidFind<V>(kid: Child<V>, rest: string, v: V, k: string)
    requires WFKid(kid) && NUL !in rest && NUL !in k && Label(kid) == CharAt(rest, 0)
    ensures WFKid(InsertKid(kid, rest, v)) && Label(InsertKid(kid, rest, v)) == Label(kid)
    ensures CharAt(k, 0) == Label(kid) ==>
              FindKid(InsertKid(kid, rest, v), k) == if k == rest then Some(v) else FindKid(kid, k)
  {
    assert rest != "" ==> rest[0] in rest;
    assert k != "" ==> k[0] in k;
    if kid.Edge? {
      assert forall c :: (c in From(rest, 1) ==> c in rest) && (c in From(k, 1) ==> c in k);
      InsertFind(kid.node, From(rest, 1), v, From(k, 1));
      if CharAt(k, 0) == kid.ch {
        assert k == [k[0]] + From(k, 1) && rest == [rest[0]] + From(rest, 1);
      }
    }
  }

  lemma PrefixSplit(key: string, seg: string, i: nat)
    requires i == Mismatch(key, seg, 0) <= |key|
    ensures key == seg[..i] + From(key, i)
  {
    assert forall x :: 0 <= x < i ==> CharAt(key, x) == key[x] == seg[x];
  }

  /** Two keys that go through the same prefix are equal if the rests are. */
  lemma SamePrefix(seg: string, a: string, b: string)
    ensures seg + a == seg + b <==> a == b
  {
    assert (seg + a)[|seg|..] == a && (seg + b)[|seg|..] == b;
  }

  /** Replacing the children of a node, seen from above. */
  lemma FindAbove<V>(n: Node<V>, n': Node<V>, rest: string, v: V, k: string)
    requires n'.seg == n.seg
    requires n.seg <= k ==>
               FindIn(n'.kids, k[|n.seg|..]) == if k[|n.seg|..] == rest then Some(v) else FindIn(n.kids, k[|n.seg|..])
    ensures Find(n', k) == if k == n.seg + rest then Some(v) else Find(n, k)
  {
    if n.seg <= k {
      assert k == n.seg + k[|n.seg|..];
      SamePrefix(n.seg, k[|n.seg|..], rest);
    } else {
      assert n.seg <= n.seg + rest;
    }
  }

  /** One insertion changes what is found under its own key and nothing else. */
  lemma {:induction false} InsertFind<V>(n: Node<V>, key: string, v: V, k: string)
    requires WF(n) && NUL !in key && NUL !in k
    ensures WF(Insert(n, key, v)) && Insert(n, key, v).kids != []
    ensures Find(Insert(n, key, v), k) == if k == key then Some(v) else Find(n, k)
  {
    MismatchWithin(key, n.seg);
    var i := Mismatch(key, n.seg, 0);
    PrefixSplit(key, n.seg, i);
    var rest, k1 := From(key, i), From(k, i);
    assert forall c :: (c in rest ==> c in key) && (c in k1 ==> c in k);
    if n.kids == [] {
      SingletonFind(key, v, k);
      NothingToFind(n, k);
    } else if i < |n.seg| {
      SplitWF(n, i);
      SplitFind(n, i, k);
      var split := SplitNode(n, i);
      AppendFind(split.kids, rest, v, k1);
      FindAbove(split, Insert(n, key, v), rest, v, k);
    } else {
      assert n.seg[..i] == n.seg;
      InsertInFind(n.kids, rest, v, k1);
      FindAbove(n, Insert(n, key, v), rest, v, k);
    }
  }

  lemma NothingToFind<V>(n: Node<V>, k: string)
    requires n.kids == []
    ensures Find(n, k) == None
  {
  }

  // ---- Any sequence of insertions ----

  datatype Entry<V> = Entry(key: string, value: V)

  /** The trie after a sequence of insertions into an empty one. */
  function Build<V>(entries: seq<Entry<V>>): Node<V>
  {
    if entries == [] then Node("", [])
    else
      var last := entries[|entries| - 1];
      Insert(Build(entries[..|entries| - 1]), last.key, last.value)
  }

  /** The finite map with the same assignments. */
  function MapOf<V>(entries: seq<Entry<V>>): map<string, V>
  {
    if entries == [] then map[]
    else
      var last := entries[|entries| - 1];
      MapOf(entries[..|entries| - 1])[last.key := last.value]
  }

  predicate ProperKeys<V>(entries: seq<Entry<V>>)
  {
    forall i :: 0 <= i < |entries| ==> NUL !in entries[i].key
  }

  /** After any insertions, including splits at any depth and overwrites, looking up a key gives what a
      finite map would give. */
  lemma {:induction false} BuildAgreesWithMap<V>(entries: seq<Entry<V>>, k: string)
    requires ProperKeys(entries) && NUL !in k
    ensures WF(Build(entries))
    ensures Find(Build(entries), k) == if k in MapOf(entries) then Some(MapOf(entries)[k]) else None
  {
    if entries != [] {
      var last := entries[|entries| - 1];
      BuildAgreesWithMap(entries[..|entries| - 1], k);
      InsertFind(Build(entries[..|entries| - 1]), last.key, last.value, k);
    }
  }

  // ---- Longest stored prefix ----

  datatype Match<V> = Match(length: nat, value: V)

  function EndValue<V>(kids: seq<Child<V>>): Option<V>
  {
    var j := KidIndex(kids, NUL);
    if 0 <= j && kids[j].End? then Some(kids[j].value) else None
  }

  /** What a walk along a query finds: the last end of a key that it passes. */
  function Longest<V>(n: Node<V>, q: string): Option<Match<V>>
  {
    if n.seg <= q then Deeper(|n.seg|, LongestIn(n.kids, q[|n.seg|..])) else None
  }

  function LongestIn<V>(kids: seq<Child<V>>, q: string): Option<Match<V>>
  {
    var j := if q == "" then -1 else KidIndex(kids, q[0]);
    var below := if j < 0 then None else LongestKid(kids[j], q);
    if below.Some? then below else EndMatch(kids)
  }

  function EndMatch<V>(kids: seq<Child<V>>): Option<Match<V>>
  {
    match EndValue(kids)
    case Some(v) => Some(Match(0, v))
    case None => None
  }

  function LongestKid<V>(kid: Child<V>, q: string): Option<Match<V>>
    requires q != ""
  {
    if kid.End? then None else Deeper(1, Longest(kid.node, q[1..]))
  }

  function Deeper<V>(shift: nat, m: Option<Match<V>>): Option<Match<V>>
  {
    match m
    case None => None
    case Some(Match(length, value)) => Some(Match(shift + length, value))
  }

  /** The independent reference: the longest prefix of the query that is stored. */
  ghost predicate IsLongest<V>(n: Node<V>, q: string, m: Option<Match<V>>)
  {
    match m
    case None => forall i :: 0 <= i <= |q| ==> Find(n, q[..i]) == None
    case Some(Match(length, value)) =>
      && length <= |q| && Find(n, q[..length]) == Some(value)
      && forall i :: length < i <= |q| ==> Find(n, q[..i]) == None
  }

  ghost predicate IsLongestIn<V>(kids: seq<Child<V>>, q: string, m: Option<Match<V>>)
  {
    match m
    case None => forall i :: 0 <= i <= |q| ==> FindIn(kids, q[..i]) == None
    case Some(Match(length, value)) =>
      && length <= |q| && FindIn(kids, q[..length]) == Some(value)
      && forall i :: length < i <= |q| ==> FindIn(kids, q[..i]) == None
  }

  lemma {:induction false} LongestIsLongest<V>(n: Node<V>, q: string)
    requires WF(n) && NUL !in q
    ensures IsLongest(n, q, Longest(n, q))
  {
    if n.seg <= q {
      var rest := q[|n.seg|..];
      assert forall c :: c in rest ==> c in q;
      LongestInIsLongest(n.kids, rest);
      forall i | 0 <= i <= |q|
        ensures Find(n, q[..i]) == if i < |n.seg| then None else FindIn(n.kids, rest[..i - |n.seg|])
      {
        if |n.seg| <= i {
          assert n.seg == q[..|n.seg|] == q[..i][..|n.seg|];
          assert q[..i][|n.seg|..] == rest[..i - |n.seg|];
        }
      }
    } else {
      forall i | 0 <= i <= |q|
        ensures !(n.seg <= q[..i])
      {
        PrefixOfPrefix(n.seg, q, i);
      }
    }
  }

  lemma {:induction false} LongestInIsLongest<V>(kids: seq<Child<V>>, q: string)
    requires WFKids(kids) && NUL !in q
    ensures IsLongestIn(kids, q, LongestIn(kids, q))
  {
    var e := KidIndex(kids, NUL);
    assert 0 <= e ==> WFKid(kids[e]);
    assert q[..0] == "";
    assert FindIn(kids, q[..0]) == EndValue(kids);
    if q != "" {
      assert q[0] in q;
      var j := KidIndex(kids, q[0]);
      assert forall i :: 1 <= i <= |q| ==> CharAt(q[..i], 0) == q[0];
      if 0 <= j {
        assert WFKid(kids[j]);
        assert forall c :: c in q[1..] ==> c in q;
        LongestKidIsLongest(kids[j], q[1..]);
        FindBelow(kids, j, q);
        var m := Longest(kids[j].node, q[1..]);
        if m.Some? {
          assert FindIn(kids, q[..m.value.length + 1]) == Some(m.value.value);
        }
      } else {
        assert forall i :: 1 <= i <= |q| ==> FindIn(kids, q[..i]) == None;
      }
    }
  }

  lemma {:induction false} LongestKidIsLongest<V>(kid: Child<V>, q: string)
    requires WFKid(kid) && kid.Edge? && NUL !in q
    ensures IsLongest(kid.node, q, Longest(kid.node, q))
  {
    LongestIsLongest(kid.node, q);
  }

  lemma FindBelow<V>(kids: seq<Child<V>>, j: nat, q: string)
    requires q != "" && j < |kids| && kids[j].Edge? && j == KidIndex(kids, q[0])
    ensures forall i :: 1 <= i <= |q| ==> FindIn(kids, q[..i]) == Find(kids[j].node, q[1..][..i - 1])
  {
    forall i | 1 <= i <= |q|
      ensures FindIn(kids, q[..i]) == Find(kids[j].node, q[1..][..i - 1])
    {
      assert q[..i][1..] == q[1..][..i - 1];
    }
  }

  // ---- Walking along a query ----

  /** What a walk that has reached a node at some position will find, if it has passed `partial`. */
  function Ahead<V>(n: Node<V>, q: string, pos: nat, partial: Option<Match<V>>): Option<Match<V>>
    requires pos <= |q|
  {
    var m := Longest(n, q[pos..]);
    if m.Some? then Deeper(pos, m) else partial
  }

  /** Passing the end of a key. */
  function Pass<V>(kids: seq<Child<V>>, pos: nat, partial: Option<Match<V>>): Option<Match<V>>
  {
    match EndValue(kids)
    case Some(v) => Some(Match(pos, v))
    case None => partial
  }

  lemma StartWalk<V>(n: Node<V>, q: string)
    ensures Ahead(n, q, 0, None) == Longest(n, q) && Find(n, q[0..]) == Find(n, q)
  {
    assert q[0..] == q;
  }

  lemma Through<V>(n: Node<V>, q: string, pos: nat, next: nat)
    requires pos <= next == pos + |n.seg| <= |q| && n.seg == q[pos..next]
    ensures Find(n, q[pos..]) == FindIn(n.kids, q[next..])
    ensures Longest(n, q[pos..]) == Deeper(|n.seg|, LongestIn(n.kids, q[next..]))
    ensures CharAt(q[next..], 0) == CharAt(q, next)
  {
    assert q[pos..] == n.seg + q[next..];
    assert (n.seg + q[next..])[|n.seg|..] == q[next..];
  }

  lemma WalkStops<V>(n: Node<V>, q: string, pos: nat, next: nat, partial: Option<Match<V>>)
    requires pos <= next == pos + |n.seg| <= |q| && n.seg == q[pos..next]
    requires KidIndex(n.kids, CharAt(q, next)) < 0
    ensures Ahead(n, q, pos, partial) == Pass(n.kids, next, partial) && Find(n, q[pos..]) == None
  {
    Through(n, q, pos, next);
  }

  lemma WalkArrives<V>(n: Node<V>, q: string, pos: nat, next: nat, partial: Option<Match<V>>, j: nat)
    requires pos <= next == pos + |n.seg| == |q| && n.seg == q[pos..next]
    requires j < |n.kids| && j == KidIndex(n.kids, NUL) && n.kids[j].End?
    ensures Ahead(n, q, pos, partial) == Some(Match(next, n.kids[j].value))
    ensures Find(n, q[pos..]) == Some(n.kids[j].value)
  {
    Through(n, q, pos, next);
  }

  lemma WalkDescends<V>(n: Node<V>, q: string, pos: nat, next: nat, partial: Option<Match<V>>, j: nat)
    requires pos <= next == pos + |n.seg| < |q| && n.seg == q[pos..next]
    requires j < |n.kids| && j == KidIndex(n.kids, q[next]) && n.kids[j].Edge?
    ensures Ahead(n, q, pos, partial) == Ahead(n.kids[j].node, q, next + 1, Pass(n.kids, next, partial))
    ensures Find(n, q[pos..]) == Find(n.kids[j].node, q[next + 1..])
  {
    Through(n, q, pos, next);
    assert q[next..][1..] == q[next + 1..];
  }

  // ---- Every value is released exactly once ----

  /** All values, in the order in which the trie releases them when it is destroyed. */
  function Values<V>(n: Node<V>): seq<V>
  {
    ValuesIn(n.kids)
  }

  function ValuesIn<V>(kids: seq<Child<V>>): seq<V>
  {
    if kids == [] then [] else ValuesIn(kids[..|kids| - 1]) + ValuesOf(kids[|kids| - 1])
  }

  function ValuesOf<V>(kid: Child<V>): seq<V>
  {
    if kid.End? then [kid.value] else Values(kid.node)
  }

  lemma ValuesAppend<V>(kids: seq<Child<V>>, kid: Child<V>)
    ensures ValuesIn(kids + [kid]) == ValuesIn(kids) + ValuesOf(kid)
  {
    assert (kids + [kid])[..|kids|] == kids;
  }

  lemma ValuesNext<V>(kids: seq<Child<V>>, i: nat)
    requires i < |kids|
    ensures ValuesIn(kids[..i + 1]) == ValuesIn(kids[..i]) + ValuesOf(kids[i])
  {
    ValuesAppend(kids[..i], kids[i]);
    assert kids[..i + 1] == kids[..i] + [kids[i]];
  }

  lemma ValuesSingle<V>(kid: Child<V>)
    ensures ValuesIn([kid]) == ValuesOf(kid)
  {
    assert [] + [kid] == [kid];
    ValuesAppend([], kid);
    assert [] + ValuesOf(kid) == ValuesOf(kid);
  }

  lemma {:induction false} ValuesReplace<V>(kids: seq<Child<V>>, j: nat, kid: Child<V>)
    requires j < |kids|
    ensures multiset(ValuesIn(kids[j := kid])) + multiset(ValuesOf(kids[j]))
         == multiset(ValuesIn(kids)) + multiset(ValuesOf(kid))
  {
    var init, last := kids[..|kids| - 1], kids[|kids| - 1];
    if j == |kids| - 1 {
      assert kids == init + [last] && kids[j := kid] == init + [kid];
      BagAppend(init, last);
      BagAppend(init, kid);
      BagExchange(multiset(ValuesIn(init)), multiset(ValuesOf(kid)), multiset(ValuesOf(last)));
    } else {
      var init' := init[j := kid];
      assert kids == init + [last] && kids[j := kid] == init' + [last] && init[j] == kids[j];
      BagAppend(init, last);
      BagAppend(init', last);
      ValuesReplace(init, j, kid);
      BagCarry(multiset(ValuesIn(init')), multiset(ValuesOf(kids[j])), multiset(ValuesIn(init)),
               multiset(ValuesOf(kid)), multiset(ValuesOf(last)));
    }
  }

  lemma BagAppend<V>(kids: seq<Child<V>>, kid: Child<V>)
    ensures multiset(ValuesIn(kids + [kid])) == multiset(ValuesIn(kids)) + multiset(ValuesOf(kid))
  {
    ValuesAppend(kids, kid);
  }

  lemma BagCarry<T>(a: multiset<T>, x: multiset<T>, b: multiset<T>, y: multiset<T>, z: multiset<T>)
    requires a + x == b + y
    ensures (a + z) + x == (b + z) + y
  {
    assert (a + z) + x == (a + x) + z;
    assert (b + z) + y == (b + y) + z;
  }

  lemma ValuesNewKid<V>(rest: string, v: V)
    ensures ValuesOf(NewKid(rest, v)) == [v]
  {
    ValuesSingle(End(v));
  }

  /** An insertion adds its value to those stored and releases the one it replaces. */
  lemma {:induction false} InsertConserves<V>(n: Node<V>, key: string, v: V)
    ensures multiset(Values(Insert(n, key, v))) + multiset(Replaced(n, key)) == multiset(Values(n)) + multiset([v])
  {
    var i := Mismatch(key, n.seg, 0);
    if n.kids == [] {
      ValuesSingle(End(v));
    } else if i < |n.seg| {
      var split := SplitNode(n, i);
      ValuesAppend(split.kids, NewKid(From(key, i), v));
      ValuesNewKid(From(key, i), v);
      ValuesSingle(split.kids[0]);
      assert multiset(Values(n) + [v]) == multiset(Values(n)) + multiset([v]);
    } else {
      InsertInConserves(n.kids, From(key, i), v);
    }
  }

  lemma {:induction false} InsertInConserves<V>(kids: seq<Child<V>>, rest: string, v: V)
    ensures multiset(ValuesIn(InsertIn(kids, rest, v))) + multiset(ReplacedIn(kids, rest))
         == multiset(ValuesIn(kids)) + multiset([v])
  {
    var j := KidIndex(kids, CharAt(rest, 0));
    if j < 0 {
      ValuesAppend(kids, NewKid(rest, v));
      ValuesNewKid(rest, v);
      assert multiset(ValuesIn(kids) + [v]) == multiset(ValuesIn(kids)) + multiset([v]);
    } else {
      var kid := kids[j];
      ValuesReplace(kids, j, InsertKid(kid, rest, v));
      InsertKidConserves(kid, rest, v);
      BagSwap(multiset(ValuesIn(InsertIn(kids, rest, v))), multiset(ValuesOf(kid)), multiset(ValuesIn(kids)),
              multiset(ValuesOf(InsertKid(kid, rest, v))), multiset(ReplacedKid(kid, rest)), multiset([v]));
    }
  }

  lemma BagSwap<T>(a: multiset<T>, b: multiset<T>, c: multiset<T>, d: multiset<T>, gone: multiset<T>, v: multiset<T>)
    requires a + b == c + d && d + gone == b + v
    ensures a + gone == c + v
  {
    assert a + b + (d + gone) == c + d + (b + v);
    assert a + gone == a + b + (d + gone) - b - d;
    assert c + v == c + d + (b + v) - b - d;
  }

  lemma {:induction false} InsertKidConserves<V>(kid: Child<V>, rest: string, v: V)
    ensures multiset(ValuesOf(InsertKid(kid, rest, v))) + multiset(ReplacedKid(kid, rest))
         == multiset(ValuesOf(kid)) + multiset([v])
  {
    if kid.Edge? {
      InsertConserves(kid.node, From(rest, 1), v);
    }
  }

  /** Everything released by the insertions themselves. */
  function AllReplaced<V>(entries: seq<Entry<V>>): seq<V>
  {
    if entries == [] then []
    else
      var init := entries[..|entries| - 1];
      AllReplaced(init) + Replaced(Build(init), entries[|entries| - 1].key)
  }

  function AllInserted<V>(entries: seq<Entry<V>>): seq<V>
  {
    if entries == [] then []
    else AllInserted(entries[..|entries| - 1]) + [entries[|entries| - 1].value]
  }

  /** Over any sequence of insertions followed by the destruction of the trie, the destructor gets every
      value that was ever inserted exactly once. */
  lemma {:induction false} ReleasedOnce<V>(entries: seq<Entry<V>>)
    ensures multiset(AllReplaced(entries) + Values(Build(entries))) == multiset(AllInserted(entries))
  {
    if entries != [] {
      var init, last := entries[..|entries| - 1], entries[|entries| - 1];
      ReleasedOnce(init);
      InsertConserves(Build(init), last.key, last.value);
      BagRun(AllReplaced(init), Values(Build(init)), Values(Build(entries)), Replaced(Build(init), last.key),
             AllInserted(init), [last.value]);
    }
  }

  lemma BagRun<T>(released: seq<T>, before: seq<T>, now: seq<T>, gone: seq<T>, inserted: seq<T>, v: seq<T>)
    requires multiset(released + before) == multiset(inserted)
    requires multiset(now) + multiset(gone) == multiset(before) + multiset(v)
    ensures multiset(released + gone + now) == multiset(inserted + v)
  {
    var r, b, n, g, i := multiset(released), multiset(before), multiset(now), multiset(gone), multiset(inserted);
    assert r + b == i;
    assert (r + g) + n == r + (n + g);
    assert r + (b + multiset(v)) == (r + b) + multiset(v);
  }
}
