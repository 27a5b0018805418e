/** estd/hashlist.hpp: a list without duplicates beside a hash index from each value to its node.
    An iterator is a node; std::list is the sequence of its nodes, std::unordered_map a map. */
module UniqueList {

  class Node<T> {
    const val: T

    constructor (val: T)
      ensures this.val == val
    {
      this.val := val;
    }
  }

  // ---------------------------------------------------------------- the simple form

  ghost predicate Distinct<T>(s: seq<T>) {
    forall i, j | 0 <= i < j < |s| :: s[i] != s[j]
  }

  function Append<T(==)>(s: seq<T>, v: T): seq<T> {
    if v in s then s else s + [v]
  }

  function InsertAt<T(==)>(s: seq<T>, i: nat, v: T): seq<T>
    requires i <= |s|
  {
    if v in s then s else s[..i] + [v] + s[i..]
  }

  function Remove<T(==)>(s: seq<T>, v: T): seq<T> {
    if s == [] then []
    else if s[0] == v then s[1..]
    else [s[0]] + Remove(s[1..], v)
  }

  function RemoveLast<T>(s: seq<T>): seq<T> {
    if s == [] then [] else s[..|s| - 1]
  }

  /** What the range constructor makes of a range. */
  function Dedup<T(==)>(s: seq<T>): seq<T> {
    if s == [] then [] else Append(Dedup(s[..|s| - 1]), s[|s| - 1])
  }

  /** i is where s[i] occurs first. */
  ghost predicate IsFirst<T>(s: seq<T>, i: int) {
    0 <= i < |s| && s[i] !in s[..i]
  }

  /** The positions of the first occurrences in s, in order. */
  ghost function Firsts<T(!new)>(s: seq<T>): seq<int> {
    if s == [] then []
    else Firsts(s[..|s| - 1]) + if IsFirst(s, |s| - 1) then [|s| - 1] else []
  }

  lemma {:induction false} FirstsAreFirst<T(!new)>(s: seq<T>)
    ensures forall i :: i in Firsts(s) <==> IsFirst(s, i)
    ensures forall p, q | 0 <= p < q < |Firsts(s)| :: Firsts(s)[p] < Firsts(s)[q]
    decreases |s|
  {
    if s != [] {
      var rest := s[..|s| - 1];
      FirstsAreFirst(rest);
      forall i | 0 <= i < |rest| ensures IsFirst(s, i) <==> IsFirst(rest, i) {
        assert s[..i] == rest[..i];
      }
      forall p, q | 0 <= p < q < |Firsts(s)| ensures Firsts(s)[p] < Firsts(s)[q] {
        if q < |Firsts(rest)| {
          assert Firsts(s)[p] == Firsts(rest)[p] && Firsts(s)[q] == Firsts(rest)[q];
        } else {
          assert Firsts(rest)[p] in Firsts(rest);
        }
      }
    }
  }

  /** The range constructor keeps exactly the first occurrences, in the order of the range. */
  lemma {:induction false} DedupKeepsFirsts<T(!new)>(s: seq<T>)
    ensures Distinct(Dedup(s))
    ensures forall v :: v in Dedup(s) <==> v in s
    ensures |Dedup(s)| == |Firsts(s)|
    ensures forall p | 0 <= p < |Firsts(s)| :: IsFirst(s, Firsts(s)[p]) && Dedup(s)[p] == s[Firsts(s)[p]]
    decreases |s|
  {
    FirstsAreFirst(s);
    if s != [] {
      var rest, last := s[..|s| - 1], s[|s| - 1];
      DedupKeepsFirsts(rest);
      assert s == rest + [last];
      forall p | 0 <= p < |Firsts(s)|
        ensures IsFirst(s, Firsts(s)[p]) && Dedup(s)[p] == s[Firsts(s)[p]]
      {
        assert Firsts(s)[p] in Firsts(s);
        if p < |Firsts(rest)| {
          assert Firsts(s)[p] == Firsts(rest)[p];
        }
      }
    }
  }

  /** Removing a value from a list without duplicates removes it and nothing else, in place. */
  lemma {:induction false} RemoveAt<T(!new)>(s: seq<T>, i: nat)
    requires Distinct(s) && i < |s|
    ensures Remove(s, s[i]) == s[..i] + s[i + 1..]
    ensures s[i] !in Remove(s, s[i])
  {
    if i != 0 {
      RemoveAt(s[1..], i - 1);
      assert s[1..][..i - 1] == s[1..i];
      assert [s[0]] + (s[1..i] + s[i + 1..]) == s[..i] + s[i + 1..];
    }
  }

  lemma {:induction false} RemoveAbsent<T(!new)>(s: seq<T>, v: T)
    requires v !in s
    ensures Remove(s, v) == s
  {
    if s != [] {
      RemoveAbsent(s[1..], v);
    }
  }

  /** erase undoes push_back and insert of a new value. */
  lemma EraseUndoes<T(!new)>(s: seq<T>, i: nat, v: T)
    requires Distinct(s) && v !in s && i <= |s|
    ensures Remove(InsertAt(s, i, v), v) == s
    ensures Remove(Append(s, v), v) == s
  {
    var t := InsertAt(s, i, v);
    assert t[i] == v && t[..i] + t[i + 1..] == s;
    RemoveAt(t, i);
    var u := Append(s, v);
    assert u[|s|] == v && u[..|s|] + u[|s| + 1..] == s;
    RemoveAt(u, |s|);
  }

  /** pop_back undoes push_back of a new value, and what it takes off a list of different values is the
      value that was pushed last. */
  lemma PopBackUndoes<T(!new)>(s: seq<T>, v: T)
    requires v !in s
    ensures RemoveLast(Append(s, v)) == s
    ensures Distinct(s) && s != [] ==> Append(RemoveLast(s), s[|s| - 1]) == s
    ensures RemoveLast<T>([]) == []
  {
    assert Append(s, v)[..|s|] == s;
    if s != [] {
      assert s == s[..|s| - 1] + [s[|s| - 1]];
    }
  }

  // ---------------------------------------------------------------- the container

  function Vals<T>(nodes: seq<Node<T>>): seq<T> {
    seq(|nodes|, i requires 0 <= i < |nodes| => nodes[i].val)
  }

  /** list::erase: the list without the given node. */
  function ListErase<T>(nodes: seq<Node<T>>, node: Node<T>): seq<Node<T>> {
    if nodes == [] then []
    else if nodes[0] == node then nodes[1..]
    else [nodes[0]] + ListErase(nodes[1..], node)
  }

  /** Erasing the node that carries a value erases the value. */
  lemma ListErased<T(!new)>(nodes: seq<Node<T>>, i: nat)
    requires i < |nodes| && Distinct(Vals(nodes))
    ensures ListErase(nodes, nodes[i]) == nodes[..i] + nodes[i + 1..]
    ensures Vals(ListErase(nodes, nodes[i])) == Remove(Vals(nodes), nodes[i].val)
  {
    hide ListErase, Remove;
    ListErasesAt(nodes, i);
    RemoveAt(Vals(nodes), i);
    assert Vals(nodes)[i] == nodes[i].val;
    assert Vals(nodes[..i] + nodes[i + 1..]) == Vals(nodes)[..i] + Vals(nodes)[i + 1..];
  }

  lemma {:induction false} ListErasesAt<T(!new)>(nodes: seq<Node<T>>, i: nat)
    requires i < |nodes| && Distinct(Vals(nodes))
    ensures ListErase(nodes, nodes[i]) == nodes[..i] + nodes[i + 1..]
  {
    if i != 0 {
      assert Vals(nodes)[0] != Vals(nodes)[i];
      assert Vals(nodes[1..]) == Vals(nodes)[1..];
      ListErasesAt(nodes[1..], i - 1);
      assert nodes[1..][..i - 1] == nodes[1..i];
      assert [nodes[0]] + (nodes[1..i] + nodes[i + 1..]) == nodes[..i] + nodes[i + 1..];
    }
  }

  /** List and index agree: the nodes carry different values, the keys are exactly the values, and each
      value is mapped to its own node. */
  ghost predicate Agree<T>(nodes: seq<Node<T>>, index: map<T, Node<T>>) {
    && (forall i, j | 0 <= i < j < |nodes| :: nodes[i].val != nodes[j].val)
    && (forall i | 0 <= i < |nodes| :: nodes[i].val in index && index[nodes[i].val] == nodes[i])
    && (forall v | v in index :: index[v] in nodes && index[v].val == v)
  }

  /** What an insertion leaves at each position. */
  function Inserted<T>(nodes: seq<Node<T>>, i: nat, node: Node<T>): (after: seq<Node<T>>)
    requires i <= |nodes|
    ensures |after| == |nodes| + 1 && after[i] == node
    ensures forall j | 0 <= j < i :: after[j] == nodes[j]
    ensures forall j | i < j < |after| :: after[j] == nodes[j - 1]
  {
    nodes[..i] + [node] + nodes[i..]
  }

  lemma InsertAgrees<T>(nodes: seq<Node<T>>, index: map<T, Node<T>>, i: nat, node: Node<T>)
    requires Agree(nodes, index) && i <= |nodes| && node.val !in index
    ensures Agree(Inserted(nodes, i, node), index[node.val := node])
  {
    var after := Inserted(nodes, i, node);
    hide Inserted;
    forall v | v in index ensures index[v] in after {
      var j :| 0 <= j < |nodes| && nodes[j] == index[v];
      assert after[if j < i then j else j + 1] == index[v];
    }
    assert after[i] == node;
  }

  lemma EraseAgrees<T>(nodes: seq<Node<T>>, index: map<T, Node<T>>, i: nat)
    requires Agree(nodes, index) && i < |nodes|
    ensures Agree(nodes[..i] + nodes[i + 1..], index - {nodes[i].val})
    ensures forall node | node in nodes :: node in nodes[..i] + nodes[i + 1..] <==> node.val != nodes[i].val
  {
    var after := nodes[..i] + nodes[i + 1..];
    assert forall j | 0 <= j < |after| :: after[j] == nodes[if j < i then j else j + 1];
    forall node | node in nodes && node.val != nodes[i].val ensures node in after {
      var j :| 0 <= j < |nodes| && nodes[j] == node;
      assert after[if j < i then j else j - 1] == node;
    }
  }

  lemma ValsInsert<T>(nodes: seq<Node<T>>, i: nat, node: Node<T>)
    requires i <= |nodes|
    ensures Vals(Inserted(nodes, i, node)) == Vals(nodes)[..i] + [node.val] + Vals(nodes)[i..]
  {
  }

  class HashList<T(==, !new)> {
    var lst: seq<Node<T>>
    var umap: map<T, Node<T>>

    ghost predicate Valid()
      reads this
    {
      Agree(lst, umap)
    }

    /** The sequence the container stands for. */
    ghost function Contents(): seq<T>
      reads this
    {
      Vals(lst)
    }

    constructor ()
      ensures Valid() && Contents() == []
    {
      lst, umap := [], map[];
    }

    /** The constructor from a range. */
    constructor FromRange(range: seq<T>)
      ensures Valid() && Contents() == Dedup(range)
    {
      lst, umap := [], map[];
      new;
      for i := 0 to |range|
        invariant Valid() && Contents() == Dedup(range[..i])
      {
        var _ := PushBack(range[i]);
        assert range[..i + 1][..i] == range[..i];
      }
      assert range[..|range|] == range;
    }

    /** push_back: the node of the value, which is a new one at the end unless there was one. */
    method PushBack(val: T) returns (position: Node<T>)
      requires Valid()
      modifies this
      ensures Valid() && Contents() == Append(old(Contents()), val)
      ensures position in lst && position.val == val
      ensures old(lst) <= lst
      ensures val in old(Contents()) ==> lst == old(lst) && umap == old(umap)
      ensures val !in old(Contents()) ==> fresh(position) && lst == old(lst) + [position]
    {
      assert val in umap <==> val in Contents() by { KeysAreContents(); }
      if val in umap {
        return umap[val];
      }
      position := new Node(val);
      lst := lst + [position];
      umap := umap[val := position];
    }

    lemma KeysAreContents()
      requires Valid()
      ensures forall v :: v in umap <==> v in Contents()
      ensures Distinct(Contents())
    {
      forall v | v in umap ensures v in Contents() {
        var i :| 0 <= i < |lst| && lst[i] == umap[v];
        assert Contents()[i] == v;
      }
    }

    /** pop_back: nothing happens to an empty list. */
    method PopBack()
      requires Valid()
      modifies this
      ensures Valid() && Contents() == RemoveLast(old(Contents()))
      ensures old(lst) != [] ==> old(lst) == lst + [old(lst[|lst| - 1])]
      ensures old(lst) == [] ==> lst == [] && umap == old(umap)
      ensures forall v | v in old(umap) ::
                if v == old(lst[|lst| - 1]).val then v !in umap else v in umap && umap[v] == old(umap[v])
    {
      if lst == [] {
        KeysAreContents();
        return;
      }
      umap := umap - {lst[|lst| - 1].val};
      lst := lst[..|lst| - 1];
    }

    /** insert before the node at index i, or at the end. */
    method Insert(i: nat, val: T) returns (position: Node<T>)
      requires Valid() && i <= |lst|
      modifies this
      ensures Valid() && Contents() == InsertAt(old(Contents()), i, val)
      ensures position in lst && position.val == val
      ensures val in old(Contents()) ==> lst == old(lst) && umap == old(umap)
      ensures val !in old(Contents()) ==> fresh(position) && lst == old(lst)[..i] + [position] + old(lst)[i..]
    {
      KeysAreContents();
      if val in umap {
        return umap[val];
      }
      position := new Node(val);
      InsertAgrees(lst, umap, i, position);
      ValsInsert(lst, i, position);
      hide Agree, Vals;
      lst := lst[..i] + [position] + lst[i..];
      umap := umap[val := position];
    }

    /** The index of a node in the list, which is what list::erase is given. */
    ghost function IndexOf(node: Node<T>): (i: nat)
      reads this
      requires node in lst
      ensures i < |lst| && lst[i] == node
    {
      var i :| 0 <= i < |lst| && lst[i] == node;
      i
    }

    /** erase by value. */
    method Erase(val: T)
      requires Valid()
      modifies this
      ensures Valid() && Contents() == Remove(old(Contents()), val)
      ensures val !in old(Contents()) ==> lst == old(lst) && umap == old(umap)
      ensures forall node | node in old(lst) :: node in lst <==> node.val != val
    {
      KeysAreContents();
      if val !in umap {
        RemoveAbsent(Contents(), val);
        return;
      }
      ghost var i := IndexOf(umap[val]);
      hide ListErase, Remove, Agree;
      ListErased(lst, i);
      EraseAgrees(lst, umap, i);
      lst := ListErase(lst, umap[val]);
      umap := umap - {val};
    }

    method Clear()
      modifies this
      ensures Valid() && Contents() == [] && umap == map[]
    {
      umap := map[];
      lst := [];
    }
  }
}
