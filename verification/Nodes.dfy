/** The nodes that are drawn (node.h). */
module Nodes {

  /** struct ivec: a number for each of the dimensions, by name or by index. */
  datatype Ivec = Ivec(x: int, y: int, z: int) {

    function Val(dim: nat): int {
      if dim == 0 then x else if dim == 1 then y else z
    }

    function With(dim: nat, v: int): (c: Ivec)
      ensures c.Val(dim) == v
    {
      if dim == 0 then Ivec(v, y, z) else if dim == 1 then Ivec(x, v, z) else Ivec(x, y, v)
    }
  }

  /** A node knows its id and its cell. It is drawn at v if vmvis is set; selected is its
      NF_SELNODE flag. */
  class Node {
    const nid: int
    const wiv: Ivec
    var v: Ivec
    var vmvis: bool
    var selected: bool

    constructor (nid: int, wiv: Ivec)
      ensures this.nid == nid && this.wiv == wiv && !vmvis && !selected
    {
      this.nid, this.wiv := nid, wiv;
      v, vmvis, selected := Ivec(0, 0, 0), false, false;
    }
  }
}
