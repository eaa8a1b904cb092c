/** Typed directed edges between synsets and senses, stored as rows of
    (lexicon, source, target, type); duplicates are allowed. */
module Relations {
  import opened Wrappers

  /** The closed set of relation types, stored by their integer codes. */
  datatype RelationType =
    | Antonym | Causes | Derivation | Entails | HoloMember | HoloPart
    | Hypernym | Hyponym | MeroMember | MeroPart | Meronym | Pertainym
    | Also | Attribute | DomainRegion | DomainTopic | Exemplifies
    | HasDomainRegion | HasDomainTopic | HoloSubstance | InstanceHypernym
    | InstanceHyponym | IsCausedBy | IsEntailedBy | IsExemplifiedBy
    | MeroSubstance | Participle | Similar

  /** The `RelationType` enum value of each type. */
  function Code(t: RelationType): int {
    match t
    case Antonym => 1
    case Causes => 2
    case Derivation => 3
    case Entails => 4
    case HoloMember => 5
    case HoloPart => 6
    case Hypernym => 7
    case Hyponym => 8
    case MeroMember => 9
    case MeroPart => 10
    case Meronym => 11
    case Pertainym => 12
    case Also => 13
    case Attribute => 14
    case DomainRegion => 15
    case DomainTopic => 16
    case Exemplifies => 17
    case HasDomainRegion => 18
    case HasDomainTopic => 19
    case HoloSubstance => 20
    case InstanceHypernym => 21
    case InstanceHyponym => 22
    case IsCausedBy => 23
    case IsEntailedBy => 24
    case IsExemplifiedBy => 25
    case MeroSubstance => 26
    case Participle => 27
    case Similar => 28
  }

  /** The type that a stored code denotes, if any. */
  function FromCode(c: int): Option<RelationType> {
    if c == 1 then Some(Antonym) else if c == 2 then Some(Causes)
    else if c == 3 then Some(Derivation) else if c == 4 then Some(Entails)
    else if c == 5 then Some(HoloMember) else if c == 6 then Some(HoloPart)
    else if c == 7 then Some(Hypernym) else if c == 8 then Some(Hyponym)
    else if c == 9 then Some(MeroMember) else if c == 10 then Some(MeroPart)
    else if c == 11 then Some(Meronym) else if c == 12 then Some(Pertainym)
    else if c == 13 then Some(Also) else if c == 14 then Some(Attribute)
    else if c == 15 then Some(DomainRegion) else if c == 16 then Some(DomainTopic)
    else if c == 17 then Some(Exemplifies) else if c == 18 then Some(HasDomainRegion)
    else if c == 19 then Some(HasDomainTopic) else if c == 20 then Some(HoloSubstance)
    else if c == 21 then Some(InstanceHypernym) else if c == 22 then Some(InstanceHyponym)
    else if c == 23 then Some(IsCausedBy) else if c == 24 then Some(IsEntailedBy)
    else if c == 25 then Some(IsExemplifiedBy) else if c == 26 then Some(MeroSubstance)
    else if c == 27 then Some(Participle) else if c == 28 then Some(Similar)
    else None
  }

  /** Codes lie in 1..28 and tell the type back, so distinct types are
      stored distinctly. */
  lemma CodeRoundTrip(t: RelationType)
    ensures 1 <= Code(t) <= 28 && FromCode(Code(t)) == Some(t)
  {
  }

  lemma CodeInjective(a: RelationType, b: RelationType)
    ensures Code(a) == Code(b) ==> a == b
  {
    CodeRoundTrip(a);
    CodeRoundTrip(b);
  }

  /** A relation type argument: an enum member or a raw integer. */
  datatype RelType = Named(t: RelationType) | Raw(code: int)

  /** The value stored in the type column. */
  function TypeValue(t: RelType): int {
    match t
    case Named(n) => Code(n)
    case Raw(c) => c
  }

  /** One relation row. */
  datatype Edge = Edge(lexicon: RowId, source: RowId, target: RowId, kind: int)

  predicate Matches(e: Edge, lexicon: RowId, source: RowId, target: RowId, kind: int) {
    e.lexicon == lexicon && e.source == source && e.target == target && e.kind == kind
  }

  /** `INSERT INTO ... VALUES (null, lexicon, source, target, type, meta)`. */
  function Link(edges: seq<Edge>, e: Edge): (r: seq<Edge>)
    ensures multiset(r) == multiset(edges) + multiset{e}
  {
    edges + [e]
  }

  /** `DELETE FROM ... WHERE lexicon_rowid = ? AND source_rowid = ? AND
      target_rowid = ? AND type_rowid = ?`: every matching row goes, every
      other row stays, in order. */
  function Unlink(edges: seq<Edge>, lexicon: RowId, source: RowId, target: RowId, kind: int): (r: seq<Edge>)
    ensures forall e :: Matches(e, lexicon, source, target, kind) ==> multiset(r)[e] == 0
    ensures forall e :: !Matches(e, lexicon, source, target, kind) ==> multiset(r)[e] == multiset(edges)[e]
  {
    if edges == [] then []
    else
      var rest := Unlink(edges[..|edges| - 1], lexicon, source, target, kind);
      var last := edges[|edges| - 1];
      assert edges == edges[..|edges| - 1] + [last];
      if Matches(last, lexicon, source, target, kind) then rest else rest + [last]
  }

  /** The number of rows that match a key. */
  function CountMatching(edges: seq<Edge>, lexicon: RowId, source: RowId, target: RowId, kind: int): nat {
    if edges == [] then 0
    else
      var hit := if Matches(edges[|edges| - 1], lexicon, source, target, kind) then 1 else 0;
      CountMatching(edges[..|edges| - 1], lexicon, source, target, kind) + hit
  }

  /** A link adds exactly one matching row, even when an equal row is
      already stored. */
  lemma LinkAddsOne(edges: seq<Edge>, e: Edge)
    ensures CountMatching(Link(edges, e), e.lexicon, e.source, e.target, e.kind)
         == CountMatching(edges, e.lexicon, e.source, e.target, e.kind) + 1
    ensures multiset(Link(edges, e))[e] == multiset(edges)[e] + 1
  {
    assert Link(edges, e)[..|edges|] == edges;
  }

  /** Nothing that matches the key survives a deletion. */
  lemma {:induction false} UnlinkLeavesNone(edges: seq<Edge>, lexicon: RowId, source: RowId, target: RowId, kind: int)
    ensures CountMatching(Unlink(edges, lexicon, source, target, kind), lexicon, source, target, kind) == 0
  {
    if edges != [] {
      var init := edges[..|edges| - 1];
      var rest := Unlink(init, lexicon, source, target, kind);
      UnlinkLeavesNone(init, lexicon, source, target, kind);
      if !Matches(edges[|edges| - 1], lexicon, source, target, kind) {
        assert (rest + [edges[|edges| - 1]])[..|rest|] == rest;
      }
    }
  }

  /** Deleting after a link removes the linked row and everything that
      matched before, as if the link had not happened. */
  lemma UnlinkAfterLink(edges: seq<Edge>, e: Edge)
    ensures Unlink(Link(edges, e), e.lexicon, e.source, e.target, e.kind)
         == Unlink(edges, e.lexicon, e.source, e.target, e.kind)
  {
    assert Link(edges, e)[..|edges|] == edges;
  }

  /** Deleting with another type, or another endpoint, leaves a linked row in place. */
  lemma UnlinkOtherKeyKeepsRow(edges: seq<Edge>, e: Edge, lexicon: RowId, source: RowId, target: RowId, kind: int)
    requires !Matches(e, lexicon, source, target, kind)
    ensures e in Unlink(Link(edges, e), lexicon, source, target, kind)
  {
    LinkAddsOne(edges, e);
  }
}
