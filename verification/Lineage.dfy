/** Successor links: `parent[c]` is the record that c replaced. Used for the `replaces` links
    of credentials and for the chains of refreshed sessions. */
module Lineage {

  type Id = string

  /** Every link goes to a record born earlier, and no record has two successors. */
  ghost predicate Forest(parent: map<Id, Id>, birth: map<Id, nat>) {
    && (forall c :: c in parent ==> c in birth && parent[c] in birth && birth[parent[c]] < birth[c])
    && (forall c, d :: c in parent && d in parent && parent[c] == parent[d] ==> c == d)
  }

  /** The record a lineage started from. */
  ghost function Root(parent: map<Id, Id>, birth: map<Id, nat>, c: Id): (r: Id)
    requires Forest(parent, birth) && c in birth
    ensures r in birth && r !in parent
    decreases birth[c]
  {
    if c in parent then Root(parent, birth, parent[c]) else c
  }

  ghost function Depth(parent: map<Id, Id>, birth: map<Id, nat>, c: Id): nat
    requires Forest(parent, birth) && c in birth
    decreases birth[c]
  {
    if c in parent then 1 + Depth(parent, birth, parent[c]) else 0
  }

  /** `a` is `c` or was replaced, directly or through others, by `c`. */
  ghost predicate IsAncestor(parent: map<Id, Id>, birth: map<Id, nat>, a: Id, c: Id)
    requires Forest(parent, birth) && c in birth
    decreases birth[c]
  {
    a == c || (c in parent && IsAncestor(parent, birth, a, parent[c]))
  }

  lemma {:induction false} AncestorIsReplaced(parent: map<Id, Id>, birth: map<Id, nat>, a: Id, c: Id)
    requires Forest(parent, birth) && a in birth && c in birth
    requires IsAncestor(parent, birth, a, c)
    ensures a == c || (Depth(parent, birth, a) < Depth(parent, birth, c) && a in parent.Values)
    decreases birth[c]
  {
    if a != c {
      AncestorIsReplaced(parent, birth, a, parent[c]);
      assert parent[c] in parent.Values;
    }
  }

  lemma {:induction false} SameDepthSameRecord(parent: map<Id, Id>, birth: map<Id, nat>, a: Id, b: Id)
    requires Forest(parent, birth) && a in birth && b in birth
    requires Root(parent, birth, a) == Root(parent, birth, b)
    requires Depth(parent, birth, a) == Depth(parent, birth, b)
    ensures a == b
    decreases birth[a]
  {
    if a in parent {
      SameDepthSameRecord(parent, birth, parent[a], parent[b]);
    }
  }

  /** A lineage is a chain: of two records with the same root one descends from the other. */
  lemma {:induction false} LineageIsChain(parent: map<Id, Id>, birth: map<Id, nat>, a: Id, b: Id)
    requires Forest(parent, birth) && a in birth && b in birth
    requires Root(parent, birth, a) == Root(parent, birth, b)
    ensures IsAncestor(parent, birth, a, b) || IsAncestor(parent, birth, b, a)
    decreases Depth(parent, birth, a) + Depth(parent, birth, b)
  {
    if Depth(parent, birth, a) == Depth(parent, birth, b) {
      SameDepthSameRecord(parent, birth, a, b);
    } else if Depth(parent, birth, a) < Depth(parent, birth, b) {
      LineageIsChain(parent, birth, a, parent[b]);
      if IsAncestor(parent, birth, parent[b], a) {
        AncestorIsReplaced(parent, birth, parent[b], a);
      }
    } else {
      LineageIsChain(parent, birth, parent[a], b);
      if IsAncestor(parent, birth, parent[a], b) {
        AncestorIsReplaced(parent, birth, parent[a], b);
      }
    }
  }

  /** So a lineage has one record at most that nothing has replaced. */
  lemma OneUnreplacedRecord(parent: map<Id, Id>, birth: map<Id, nat>, a: Id, b: Id)
    requires Forest(parent, birth) && a in birth && b in birth
    requires Root(parent, birth, a) == Root(parent, birth, b)
    requires a !in parent.Values && b !in parent.Values
    ensures a == b
  {
    LineageIsChain(parent, birth, a, b);
    if IsAncestor(parent, birth, a, b) {
      AncestorIsReplaced(parent, birth, a, b);
    } else {
      AncestorIsReplaced(parent, birth, b, a);
    }
  }

  /** Later births and links leave every earlier lineage as it was. */
  lemma {:induction false} RootIsStable(parent: map<Id, Id>, birth: map<Id, nat>,
                                        parent': map<Id, Id>, birth': map<Id, nat>, c: Id)
    requires Forest(parent, birth) && Forest(parent', birth') && c in birth
    requires forall d :: d in birth ==> d in birth' && birth'[d] == birth[d]
    requires forall d :: d in birth ==> (d in parent <==> d in parent')
    requires forall d :: d in parent ==> parent'[d] == parent[d]
    ensures Root(parent', birth', c) == Root(parent, birth, c)
    decreases birth[c]
  {
    if c in parent {
      RootIsStable(parent, birth, parent', birth', parent[c]);
    }
  }

  /** A new record may be born alone or as the one successor of an older record. */
  lemma ForestGrows(parent: map<Id, Id>, birth: map<Id, nat>, c: Id, n: nat)
    requires Forest(parent, birth) && c !in birth
    ensures Forest(parent, birth[c := n])
  {
  }

  lemma LinkGrows(parent: map<Id, Id>, birth: map<Id, nat>, c: Id, p: Id)
    requires Forest(parent, birth) && c in birth && c !in parent && p in birth && birth[p] < birth[c]
    requires forall d :: d in parent ==> parent[d] != p
    ensures Forest(parent[c := p], birth)
  {
  }
}
