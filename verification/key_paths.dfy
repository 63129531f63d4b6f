/** Accumulating resolved key paths while an external walker visits content nodes.

    A key path is a pattern of name segments addressing nodes of an animation's
    content tree. The matching itself (`FullyResolvesTo`), the extension of a
    partial path by one name (`AddKey`) and the binding of a path to the content
    it matched (`Resolve`) belong to the KeyPath class, which is not part of this
    model: they are taken as given functions, bundled with the content's `Name`.
    Being functions, they are assumed pure and deterministic: `Name` gives the same
    string each time it is read, and `AddKey` and `Resolve` return new key paths
    without changing the one they are called on. Nothing else is assumed about them. */
module KeyPaths {

  /** The collaborators the resolution step relies on, for key paths `K` and content nodes `C`. */
  datatype KeyPathOps<!K, !C> = KeyPathOps(
    fullyResolvesTo: (K, string, int) -> bool,
    addKey: (K, string) -> K,
    resolve: (K, C) -> K,
    name: C -> string)

  /** The caller's list of resolved key paths, grown in place. */
  class Accumulator<K> {
    var items: seq<K>

    constructor ()
      ensures items == []
    {
      items := [];
    }

    method Add(k: K)
      modifies this
      ensures items == old(items) + [k]
    {
      items := items + [k];
    }
  }

  /** What resolving `content` at `depth` contributes to the accumulator:
      the extended, resolved partial path on a full match, nothing otherwise. */
  function Contribution<K, C>(ops: KeyPathOps<K, C>, keyPath: K, depth: int, partial: K, content: C): seq<K>
  {
    var name := ops.name(content);
    if ops.fullyResolvesTo(keyPath, name, depth) then [ops.resolve(ops.addKey(partial, name), content)]
    else []
  }

  /** If `keyPath` fully resolves to the content's name at `depth`, appends the
      partial path extended by that name and bound to `content`; otherwise does nothing. */
  method ResolveKeyPath<K, C>(ops: KeyPathOps<K, C>, keyPath: K, depth: int, accumulator: Accumulator<K>,
                              currentPartialKeyPath: K, content: C)
    modifies accumulator
    ensures accumulator.items == old(accumulator.items) + Contribution(ops, keyPath, depth, currentPartialKeyPath, content)
    ensures |accumulator.items| == |old(accumulator.items)| + (if ops.fullyResolvesTo(keyPath, ops.name(content), depth) then 1 else 0)
    ensures accumulator.items[..|old(accumulator.items)|] == old(accumulator.items)
    ensures ops.fullyResolvesTo(keyPath, ops.name(content), depth) ==>
      accumulator.items[|old(accumulator.items)|]
        == ops.resolve(ops.addKey(currentPartialKeyPath, ops.name(content)), content)
  {
    var partial := currentPartialKeyPath;
    if ops.fullyResolvesTo(keyPath, ops.name(content), depth) {
      partial := ops.addKey(partial, ops.name(content));
      accumulator.Add(ops.resolve(partial, content));
    }
  }

  // ---------------------------------------------------------------------------
  // Several resolutions in a row, as an external tree walk performs them

  /** The arguments of one resolution call. */
  datatype Visit<K, C> = Visit(keyPath: K, depth: int, partial: K, content: C)

  predicate Matches<K, C>(ops: KeyPathOps<K, C>, v: Visit<K, C>)
  {
    ops.fullyResolvesTo(v.keyPath, ops.name(v.content), v.depth)
  }

  /** The entry a matching visit adds. */
  function EntryOf<K, C>(ops: KeyPathOps<K, C>, v: Visit<K, C>): K
  {
    ops.resolve(ops.addKey(v.partial, ops.name(v.content)), v.content)
  }

  /** The accumulator after resolving each visit in turn, starting from `acc`. */
  function Walk<K, C>(ops: KeyPathOps<K, C>, acc: seq<K>, visits: seq<Visit<K, C>>): seq<K>
    decreases |visits|
  {
    if visits == [] then acc
    else
      var v := visits[0];
      Walk(ops, acc + Contribution(ops, v.keyPath, v.depth, v.partial, v.content), visits[1..])
  }

  /** The entries of the matching visits, in visiting order. */
  function Filtered<K, C>(ops: KeyPathOps<K, C>, visits: seq<Visit<K, C>>): seq<K>
    decreases |visits|
  {
    if visits == [] then []
    else (if Matches(ops, visits[0]) then [EntryOf(ops, visits[0])] else []) + Filtered(ops, visits[1..])
  }

  /** A series of resolutions appends exactly the entries of the matching visits,
      in visiting order, after everything the accumulator already held. */
  lemma {:induction false} WalkAppendsMatches<K, C>(ops: KeyPathOps<K, C>, acc: seq<K>, visits: seq<Visit<K, C>>)
    ensures Walk(ops, acc, visits) == acc + Filtered(ops, visits)
    decreases |visits|
  {
    if visits != [] {
      var v := visits[0];
      var c := Contribution(ops, v.keyPath, v.depth, v.partial, v.content);
      assert c == (if Matches(ops, v) then [EntryOf(ops, v)] else []);
      WalkAppendsMatches(ops, acc + c, visits[1..]);
      assert (acc + c) + Filtered(ops, visits[1..]) == acc + (c + Filtered(ops, visits[1..]));
    }
  }

  /** Existing entries are never removed or reordered, and each visit adds at most one entry.
      (A corollary of `WalkAppendsMatches`, proved here by its own induction.) */
  lemma {:induction false} WalkExtends<K, C>(ops: KeyPathOps<K, C>, acc: seq<K>, visits: seq<Visit<K, C>>)
    ensures |acc| <= |Walk(ops, acc, visits)| <= |acc| + |visits|
    ensures Walk(ops, acc, visits)[..|acc|] == acc
    decreases |visits|
  {
    if visits != [] {
      var v := visits[0];
      var acc' := acc + Contribution(ops, v.keyPath, v.depth, v.partial, v.content);
      WalkExtends(ops, acc', visits[1..]);
      assert Walk(ops, acc, visits)[..|acc'|][..|acc|] == Walk(ops, acc, visits)[..|acc|];
    }
  }

  /** When every visited node matches, the accumulator gains their entries in visiting order.
      (The all-match case of `WalkAppendsMatches`, proved here by its own induction.) */
  lemma {:induction false} WalkKeepsVisitOrder<K, C>(ops: KeyPathOps<K, C>, acc: seq<K>, visits: seq<Visit<K, C>>)
    requires forall i :: 0 <= i < |visits| ==> Matches(ops, visits[i])
    ensures |Walk(ops, acc, visits)| == |acc| + |visits|
    ensures forall i :: 0 <= i < |visits| ==> Walk(ops, acc, visits)[|acc| + i] == EntryOf(ops, visits[i])
    decreases |visits|
  {
    if visits != [] {
      var v := visits[0];
      var acc' := acc + [EntryOf(ops, v)];
      assert Matches(ops, visits[0]);
      WalkKeepsVisitOrder(ops, acc', visits[1..]);
      WalkExtends(ops, acc', visits[1..]);
      var w := Walk(ops, acc, visits);
      forall i | 0 <= i < |visits|
        ensures w[|acc| + i] == EntryOf(ops, visits[i])
      {
        if i == 0 {
          assert w[..|acc'|][|acc|] == w[|acc|];
        } else {
          assert visits[1..][i - 1] == visits[i];
        }
      }
    }
  }

  /** When no visited node matches, the accumulator is left as it was.
      (The no-match case of `WalkAppendsMatches`, proved here by its own induction.) */
  lemma {:induction false} WalkWithoutMatches<K, C>(ops: KeyPathOps<K, C>, acc: seq<K>, visits: seq<Visit<K, C>>)
    requires forall i :: 0 <= i < |visits| ==> !Matches(ops, visits[i])
    ensures Walk(ops, acc, visits) == acc
  {
    if visits != [] {
      var v := visits[0];
      assert !Matches(ops, v);
      assert acc + Contribution(ops, v.keyPath, v.depth, v.partial, v.content) == acc;
      WalkWithoutMatches(ops, acc, visits[1..]);
    }
  }
}
