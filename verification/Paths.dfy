/** What the builder's passes over its nodes share: kinds, and the index of nodes by path. */
module Paths {
  import opened Format

  datatype Kind = File | Directory | Symlink | Hardlink | Fifo

  /** `byPath`: every node under its path, and nothing else. */
  ghost predicate IndexOf<T(!new)>(nodes: seq<T>, path: T -> seq<byte>, byPath: map<seq<byte>, nat>) {
    && (forall i: nat {:trigger nodes[i]} :: i < |nodes| ==> path(nodes[i]) in byPath && byPath[path(nodes[i])] == i)
    && (forall p: seq<byte> {:trigger byPath[p]} :: p in byPath ==> byPath[p] < |nodes| && path(nodes[byPath[p]]) == p)
  }

  method IndexPaths<T(!new)>(nodes: seq<T>, path: T -> seq<byte>) returns (byPath: map<seq<byte>, nat>)
    requires forall i: nat, j: nat :: i < j < |nodes| ==> path(nodes[i]) != path(nodes[j])
    ensures IndexOf(nodes, path, byPath)
  {
    byPath := map[];
    for i := 0 to |nodes|
      invariant forall k: nat {:trigger nodes[k]} :: k < i ==> path(nodes[k]) in byPath && byPath[path(nodes[k])] == k
      invariant forall p: seq<byte> {:trigger byPath[p]} :: p in byPath ==> byPath[p] < i && path(nodes[byPath[p]]) == p
    {
      byPath := byPath[path(nodes[i]) := i];
    }
  }
}
