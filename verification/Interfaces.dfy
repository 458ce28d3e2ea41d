/** The linked interface list of sr_if.c, which refines the sequence of Routing. */
module Interfaces {
  import opened Bytes
  import opened Routing

  /** `struct sr_if`; `at` is its place in the list, which never changes. */
  class IfNode {
    ghost const at: nat
    const name: string
    var addr: Mac
    var ip: Ip
    var next: IfNode?

    ghost function Value(): Iface
      reads this`addr, this`ip
    {
      Iface(name, addr, ip)
    }

    /** A new record: the name is copied in, the addresses are whatever memory held. */
    constructor (ghost at: nat, name: string, addr: Mac, ip: Ip)
      ensures this.at == at && this.name == name && this.addr == addr && this.ip == ip && next == null
    {
      this.at, this.name, this.addr, this.ip, next := at, name, addr, ip, null;
    }
  }

  class IfList {
    var first: IfNode?
    ghost var nodes: seq<IfNode>
    ghost var contents: seq<Iface>

    ghost predicate Valid()
      reads this, nodes
    {
      && |contents| == |nodes| && (first == null <==> nodes == []) && (nodes != [] ==> first == nodes[0])
      && (forall i {:trigger nodes[i].next} :: 0 <= i < |nodes| - 1 ==> nodes[i].next == nodes[i + 1])
      && (nodes != [] ==> nodes[|nodes| - 1].next == null)
      && (forall i {:trigger nodes[i]} :: 0 <= i < |nodes| ==> nodes[i].at == i)
      && (forall i {:trigger nodes[i].Value()} {:trigger contents[i]} :: 0 <= i < |nodes| ==>
            nodes[i].Value() == contents[i])
    }

    constructor ()
      ensures Valid() && contents == []
    {
      first, nodes, contents := null, [], [];
    }

    /** `sr_get_interface`: the first interface of that name. */
    method Get(name: string) returns (node: IfNode?)
      requires Valid()
      ensures node == null <==> GetInterface(contents, name).None?
      ensures node != null ==> node in nodes && GetInterface(contents, name) == Some(node.Value())
    {
      node := first;
      ghost var i := 0;
      while node != null && node.name != name
        invariant 0 <= i <= |nodes| && (node == null <==> i == |nodes|) && (node != null ==> node == nodes[i])
        invariant GetInterface(contents[i..], name) == GetInterface(contents, name)
        decreases |nodes| - i
      {
        assert contents[i].name == nodes[i].Value().name;
        assert contents[i..][1..] == contents[i + 1..];
        node, i := node.next, i + 1;
      }
      if node != null { assert contents[i..][0] == nodes[i].Value(); }
    }

    /** The walk to the end of a list that is not empty. */
    method Last() returns (node: IfNode)
      requires Valid() && first != null
      ensures nodes != [] && node == nodes[|nodes| - 1]
    {
      node := first;
      ghost var i := 0;
      while node.next != null
        invariant 0 <= i < |nodes| && node == nodes[i]
        decreases |nodes| - i
      {
        node, i := node.next, i + 1;
      }
    }

    /** `sr_add_interface`: the new interface goes to the end. */
    method Add(name: string, addr: Mac, ip: Ip)
      requires Valid()
      modifies this, nodes
      ensures Valid() && contents == old(contents) + [Iface(name, addr, ip)]
      ensures forall n :: n in nodes ==> n in old(nodes) || fresh(n)
    {
      var node := new IfNode(|nodes|, name, addr, ip);
      if first == null {
        first := node;
      } else {
        var last := Last();
        last.next := node;
      }
      nodes, contents := nodes + [node], contents + [Iface(name, addr, ip)];
    }

    /** `sr_set_ether_addr`: the hardware address of the last interface. */
    method SetEtherAddr(addr: Mac)
      requires Valid() && first != null
      modifies this`contents, nodes
      ensures Valid() && nodes == old(nodes) && contents != []
      ensures contents == old(contents)[|nodes| - 1 := old(contents)[|nodes| - 1].(addr := addr)]
    {
      var last := Last();
      last.addr := addr;
      contents := contents[|nodes| - 1 := contents[|nodes| - 1].(addr := addr)];
    }

    /** `sr_set_ether_ip`: the IP address of the last interface. */
    method SetEtherIp(ip: Ip)
      requires Valid() && first != null
      modifies this`contents, nodes
      ensures Valid() && nodes == old(nodes) && contents != []
      ensures contents == old(contents)[|nodes| - 1 := old(contents)[|nodes| - 1].(ip := ip)]
    {
      var last := Last();
      last.ip := ip;
      contents := contents[|nodes| - 1 := contents[|nodes| - 1].(ip := ip)];
    }
  }
}
