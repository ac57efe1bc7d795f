/** The ECG manager's doubly linked list, updated in place, against the list of keys it stands for. */
module EcgList {
  import opened Seqs
  import opened EcgKeys

  class EcgInfo {
    var next: EcgInfo?
    var previous: EcgInfo?
    var shmKey: int
    var semKey: int

    /** malloc: links and keys hold whatever was in memory. */
    constructor (next: EcgInfo?, previous: EcgInfo?, garbage: int, semGarbage: int)
      ensures this.shmKey == garbage
    {
      this.next, this.previous, this.shmKey, this.semKey := next, previous, garbage, semGarbage;
    }
  }

  class EcgManager {
    /** ecg_info_list. */
    var list: EcgInfo?
    /** ecg_list_length. */
    var length: int
    /** current_loading_ecg_info. */
    var loading: EcgInfo?
    /** next_key_offset, a static of the key allocator. */
    var offset: nat
    /** The nodes, in list order. */
    ghost var nodes: seq<EcgInfo>

    ghost function Node(i: int): (n: EcgInfo?)
      reads this`nodes
    {
      if 0 <= i < |nodes| then nodes[i] else null
    }

    /** next and previous are each other's inverse along the nodes, and nothing else is linked. */
    ghost predicate Linked()
      reads this`list, this`nodes, nodes
    {
      && Distinct(nodes)
      && (list == if nodes == [] then null else nodes[0])
      && (forall i {:trigger nodes[i].next} :: 0 <= i < |nodes| ==> nodes[i].next == Node(i + 1))
      && (forall i {:trigger nodes[i].previous} :: 0 <= i < |nodes| ==> nodes[i].previous == Node(i - 1))
    }

    ghost function Keys(): (keys: seq<int>)
      reads this`nodes, nodes
      ensures |keys| == |nodes|
    {
      var ns := nodes;
      seq(|ns|, i requires 0 <= i < |ns| reads ns => ns[i].shmKey)
    }

    ghost function SemKeys(): (keys: seq<int>)
      reads this`nodes, nodes
      ensures |keys| == |nodes|
    {
      var ns := nodes;
      seq(|ns|, i requires 0 <= i < |ns| reads ns => ns[i].semKey)
    }

    /** Both keys of every node come from one offset. */
    ghost predicate Paired()
      reads this`nodes, nodes
    {
      PairedUpTo(|nodes|)
    }

    ghost predicate PairedUpTo(n: nat)
      requires n <= |nodes|
      reads this`nodes, nodes
    {
      forall i :: 0 <= i < n ==> nodes[i].semKey - ECG_SEMKEY_START == nodes[i].shmKey - ECG_SHMKEY_START
    }

    /** Semaphore keys are then distinct exactly when the shared-memory keys are. */
    lemma SemKeysDistinctIff()
      requires Paired()
      ensures Distinct(SemKeys()) <==> Distinct(Keys())
    {
      assert forall i :: 0 <= i < |nodes| ==> SemKeys()[i] - ECG_SEMKEY_START == Keys()[i] - ECG_SHMKEY_START;
    }

    ghost function View(): (s: Ecgs)
      reads this, nodes
    {
      Ecgs(Keys(), offset, length)
    }

    constructor ()
      ensures Linked() && Paired() && View() == NONE
    {
      list, length, loading, offset, nodes := null, 0, null, 0, [];
    }

    method FindTail() returns (p: EcgInfo)
      requires Linked() && nodes != []
      ensures p == nodes[|nodes| - 1]
    {
      p := list;
      ghost var i := 0;
      while p.next != null
        invariant 0 <= i < |nodes| && p == nodes[i]
        decreases |nodes| - i
      {
        p := p.next;
        i := i + 1;
      }
    }

    /** htxd_allocate_ecg_info: walk to the tail and hang a new node there. */
    method AllocateEcgInfo(next: EcgInfo?, previous: EcgInfo?, garbage: int, semGarbage: int)
      requires Linked() && Paired()
      modifies this`list, this`loading, this`nodes, nodes`next
      ensures Linked() && loading != null && fresh(loading)
      ensures nodes == old(nodes) + [loading] && PairedUpTo(|nodes| - 1)
      ensures Keys() == old(Keys()) + [garbage]
    {
      var node := new EcgInfo(next, previous, garbage, semGarbage);
      Hang(node);
      loading := node;
    }

    method Hang(node: EcgInfo)
      requires Linked() && node !in nodes
      modifies this`list, this`nodes, nodes`next, node`next, node`previous
      ensures Linked() && nodes == old(nodes) + [node]
    {
      if list == null {
        list := node;
        node.next, node.previous := null, null;
      } else {
        var p := FindTail();
        p.next := node;
        node.previous := p;
        node.next := null;
      }
      nodes := nodes + [node];
    }

    /** htxd_get_next_key_offset: the two nested loops. */
    method GetNextKeyOffset() returns (o: int)
      requires Linked() && offset <= KEY_OFFSET_LIMIT
      modifies this`offset
      ensures offset == Walk(old(Keys()), old(offset)) && o == offset
      ensures Linked() && Keys() == old(Keys())
    {
      var p := list;
      if p == null {
        return offset;
      }
      ghost var keys, i := Keys(), 0;
      assert keys[0..] == keys;
      while offset < KEY_OFFSET_LIMIT
        invariant Linked() && 0 <= i <= |nodes| && p == Node(i)
        invariant offset <= KEY_OFFSET_LIMIT && keys == Keys()
        invariant Walk(keys[i..], offset) == Walk(keys, old(offset))
        decreases KEY_OFFSET_LIMIT - offset
      {
        while p != null
          invariant Linked() && 0 <= i <= |nodes| && p == Node(i)
          invariant Walk(keys[i..], offset) == Walk(keys, old(offset))
          invariant keys == Keys() && offset < KEY_OFFSET_LIMIT
          decreases |nodes| - i
        {
          assert keys[i..][0] == p.shmKey && keys[i..][1..] == keys[i + 1..];
          if p.shmKey == ECG_SHMKEY_START + offset {
            offset := offset + 1;
            break;
          }
          p := p.next;
          i := i + 1;
        }
        if p == null {
          break;
        }
      }
      o := if offset > KEY_OFFSET_LIMIT then -1 else offset;
    }

    /** htxd_init_ecg_info; ok says whether its semaphores and shared memory could be had. */
    method InitEcgInfo(next: EcgInfo?, previous: EcgInfo?, garbage: int, semGarbage: int, ok: bool) returns (rc: int)
      requires Linked() && Paired() && Bounded(View())
      modifies this, nodes`next
      ensures Linked() && Paired() && Bounded(View())
      ensures View() == Apply(old(View()), Add(garbage, ok))
      ensures |nodes| == |old(nodes)| + 1 && nodes[..|old(nodes)|] == old(nodes) && fresh(nodes[|old(nodes)|])
      ensures rc == if ok then 0 else -1
    {
      ApplyKeepsBounded(View(), Add(garbage, ok));
      AppendWithKeys(next, previous, garbage, semGarbage);
      if ok {
        length := length + 1;
        rc := 0;
      } else {
        rc := -1;
      }
    }

    /** A new node at the tail, and then its keys.  That the source once more clears the link of
        the new node, which AllocateEcgInfo leaves null, changes nothing. */
    method AppendWithKeys(next: EcgInfo?, previous: EcgInfo?, garbage: int, semGarbage: int)
      requires Linked() && Paired() && offset <= KEY_OFFSET_LIMIT
      modifies this`list, this`loading, this`nodes, this`offset, nodes`next
      ensures Linked() && Paired() && loading != null && fresh(loading) && nodes == old(nodes) + [loading]
      ensures offset == Walk(old(Keys()) + [garbage], old(offset))
      ensures Keys() == old(Keys()) + [ECG_SHMKEY_START + offset]
    {
      ghost var keys := Keys();
      AllocateEcgInfo(next, previous, garbage, semGarbage);
      KeyNewNode(loading);
      assert (keys + [garbage])[|keys| := ECG_SHMKEY_START + offset] == keys + [ECG_SHMKEY_START + offset];
    }

    /** Both keys of the last node, from one offset. */
    method KeyNewNode(current: EcgInfo)
      requires Linked() && nodes != [] && current == nodes[|nodes| - 1] && PairedUpTo(|nodes| - 1)
      requires offset <= KEY_OFFSET_LIMIT
      modifies this`offset, current`shmKey, current`semKey
      ensures Linked() && Paired() && offset == Walk(old(Keys()), old(offset))
      ensures Keys() == old(Keys())[|nodes| - 1 := ECG_SHMKEY_START + offset]
    {
      var o := GetNextKeyOffset();
      SetKeys(current, o);
    }

    method SetKeys(current: EcgInfo, o: int)
      requires Linked() && nodes != [] && current == nodes[|nodes| - 1] && PairedUpTo(|nodes| - 1)
      modifies current`shmKey, current`semKey
      ensures Linked() && Paired() && Keys() == old(Keys())[|nodes| - 1 := ECG_SHMKEY_START + o]
    {
      current.shmKey := ECG_SHMKEY_START + o;
      current.semKey := ECG_SEMKEY_START + o;
    }

    /** The links once the neighbours of node `at` have been joined around it. */
    ghost predicate Bypassed(at: nat)
      requires at < |nodes|
      reads this`nodes, nodes
    {
      && (forall k {:trigger nodes[k].next} :: 0 <= k < |nodes| && k != at ==>
            nodes[k].next == Node(if k + 1 == at then at + 1 else k + 1))
      && (forall k {:trigger nodes[k].previous} :: 0 <= k < |nodes| && k != at ==>
            nodes[k].previous == Node(if k - 1 == at then at - 1 else k - 1))
    }

    /** The node that is bypassed can leave the sequence. */
    ghost method Forget(at: nat)
      requires at < |nodes| && Distinct(nodes) && Bypassed(at)
      requires list == if at > 0 then nodes[0] else Node(1)
      modifies this`nodes
      ensures Linked() && nodes == Without(old(nodes), at)
    {
      ghost var was := nodes;
      WithoutMembers(nodes, at);
      nodes := Without(nodes, at);
      forall i | 0 <= i < |nodes| ensures nodes[i].next == Node(i + 1) && nodes[i].previous == Node(i - 1) {
        WithoutAt(was, at, i);
        if i + 1 < |nodes| {
          WithoutAt(was, at, i + 1);
        }
        if i > 0 {
          WithoutAt(was, at, i - 1);
        }
      }
    }

    /** Take a node out of a list of at least two. */
    method Unlink(p: EcgInfo, ghost at: nat)
      requires Linked() && at < |nodes| && p == nodes[at] && |nodes| > 1
      modifies this`list, this`nodes, nodes`next, nodes`previous
      ensures Linked() && nodes == Without(old(nodes), at)
      ensures p.next == old(p.next)
    {
      assert p.previous == Node(at - 1) && p.next == Node(at + 1);
      if p.previous != null {
        p.previous.next := p.next;
      } else {
        list := p.next;
        p.next.previous := p.previous;
      }
      if p.next != null {
        p.next.previous := p.previous;
      }
      Forget(at);
    }

    /** htxd_remove_ecg_info_node of a node in the list. */
    method RemoveEcgInfoNode(p: EcgInfo, ghost at: nat)
      requires Linked() && Paired() && at < |nodes| && p == nodes[at]
      requires length == 1 || |nodes| > 1
      modifies this`list, this`nodes, this`length, nodes`next, nodes`previous
      ensures Linked() && Paired()
      ensures nodes == if old(length) == 1 then [] else Without(old(nodes), at)
      ensures View() == Apply(old(View()), Remove(at))
      ensures p.next == old(p.next)
    {
      if length == 1 {
        list := null;
        nodes := [];
      } else {
        Unlink(p, at);
        assert Keys() == Without(old(Keys()), at);
      }
      length := length - 1;
    }

    /** htxd_shutdown_all_mdt: remove the head until none is left. */
    method ShutdownAllMdt()
      requires Linked() && Paired() && Drains(View())
      modifies this`list, this`nodes, this`length, nodes`next, nodes`previous
      ensures Linked() && Paired() && nodes == [] && offset == old(offset)
      ensures length == old(length) - |old(nodes)|
    {
      DrainsIff(View());
      var p := list;
      while p != null
        invariant Linked() && Paired() && p == list && length - |nodes| == old(length - |nodes|)
        invariant nodes == [] || length == |nodes|
        invariant forall i :: 0 <= i < |nodes| ==> nodes[i] in old(nodes)
        decreases |nodes|
      {
        p := RemoveHead(p);
      }
    }

    /** Removal of the first node, and the step to the one that was after it. */
    method RemoveHead(p: EcgInfo) returns (next: EcgInfo?)
      requires Linked() && Paired() && length == |nodes| && p == list
      modifies this`list, this`nodes, this`length, nodes`next, nodes`previous
      ensures Linked() && Paired() && nodes == old(nodes)[1..] && length == |nodes| && next == list
    {
      assert nodes[0].next == Node(1);
      RemoveEcgInfoNode(p, 0);
      next := p.next;
    }

    /** Node number `at`, by following the links. */
    method FindNode(at: nat) returns (p: EcgInfo)
      requires Linked() && at < |nodes|
      ensures p == nodes[at]
    {
      p := list;
      for i := 0 to at
        invariant p == nodes[i]
      {
        p := p.next;
      }
    }

    /** One load or removal, whatever memory the new node comes in. */
    method Perform(op: Op, next: EcgInfo?, previous: EcgInfo?, semGarbage: int)
      requires Linked() && Paired() && Bounded(View()) && Legal(View(), op)
      modifies this, nodes`next, nodes`previous
      ensures Linked() && Paired() && Bounded(View()) && View() == Apply(old(View()), op)
      ensures forall i :: 0 <= i < |nodes| ==> nodes[i] in old(nodes) || fresh(nodes[i])
    {
      match op
      case Add(garbage, ok) =>
        var _ := InitEcgInfo(next, previous, garbage, semGarbage, ok);
      case Remove(at) =>
        ApplyKeepsBounded(View(), op);
        var p := FindNode(at);
        RemoveEcgInfoNode(p, at);
    }

    /** Any history of loads and removals, in place: the list goes through exactly the states of
        the history, and with room at every load both kinds of IPC keys stay distinct. */
    method Manage(ops: seq<Op>, semGarbage: nat -> int)
      requires Linked() && View() == NONE && LegalHistory(ops)
      modifies this
      ensures Linked() && Paired() && View() == After(ops)
      ensures AlwaysRoom(ops) ==> Distinct(Keys()) && Distinct(SemKeys())
    {
      for k := 0 to |ops|
        invariant Linked() && Paired() && Bounded(View())
        invariant LegalHistory(ops[..k]) && View() == After(ops[..k])
        invariant forall i :: 0 <= i < |nodes| ==> fresh(nodes[i])
      {
        LegalPrefix(ops, k + 1);
        assert ops[..k + 1][..k] == ops[..k];
        Perform(ops[k], null, null, semGarbage(k));
      }
      assert ops[..|ops|] == ops;
      KeysStayDistinctIff(ops);
      SemKeysDistinctIff();
    }
  }
}
