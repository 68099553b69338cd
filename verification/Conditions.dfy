/** The condition trees of rules, and the search for `inSegment` clauses in
    them (backend/internal/store/segment.go). */
module Conditions {
  import opened Records

  const OP_IN_SEGMENT := "inSegment"
  const MAX_SEGMENT_RULES := 100
  const MAX_SEGMENT_TARGETING_KEYS := 6000

  /** One clause names the wanted segment, or any segment when none is wanted. */
  predicate ClauseMatches(c: Condition, wanted: Option<string>) {
    && c.op == OP_IN_SEGMENT
    && (wanted.None? || exists i :: 0 <= i < |c.values.Elems()| && c.values.Elems()[i].AsString() == wanted)
  }

  /** usesInSegment: depth first, a clause before the group under it. */
  predicate UsesInSegment(conditions: seq<Condition>, wanted: Option<string>)
    decreases conditions
  {
    |conditions| > 0 &&
    (|| ClauseMatches(conditions[0], wanted)
     || (match conditions[0].conditions
         case Nil => false
         case Of(children) => UsesInSegment(children, wanted))
     || UsesInSegment(conditions[1..], wanted))
  }

  /** Every node of a condition forest, in reading order. */
  function Flatten(conditions: seq<Condition>): seq<Condition>
    decreases conditions
  {
    if conditions == [] then [] else
      [conditions[0]]
      + (match conditions[0].conditions
         case Nil => []
         case Of(children) => Flatten(children))
      + Flatten(conditions[1..])
  }

  /** The search answers for the flattened tree: it is true exactly when some
      node, at whatever depth, is a matching clause. */
  lemma {:induction false} UsesInSegmentIsFlatSearch(conditions: seq<Condition>, wanted: Option<string>)
    ensures UsesInSegment(conditions, wanted)
       <==> exists c :: c in Flatten(conditions) && ClauseMatches(c, wanted)
    decreases conditions
  {
    if conditions != [] {
      var head := conditions[0];
      UsesInSegmentIsFlatSearch(conditions[1..], wanted);
      match head.conditions {
        case Nil =>
        case Of(children) => UsesInSegmentIsFlatSearch(children, wanted);
      }
      assert head in Flatten(conditions);
    }
  }

  /** A set of conditions that has a forest in it and, with every condition, the
      conditions of the group under it. */
  ghost predicate IsClosed(nodes: iset<Condition>, conditions: seq<Condition>) {
    && (forall i :: 0 <= i < |conditions| ==> conditions[i] in nodes)
    && (forall c, i :: c in nodes && 0 <= i < |c.conditions.Elems()| ==> c.conditions.Elems()[i] in nodes)
  }

  /** The flattened forest is the least such set: every node at whatever depth,
      and nothing else. */
  lemma FlattenIsTheClosure(conditions: seq<Condition>)
    ensures IsClosed((iset c | c in Flatten(conditions)), conditions)
    ensures forall nodes :: IsClosed(nodes, conditions) ==> forall c :: c in Flatten(conditions) ==> c in nodes
  {
    FlattenIsClosed(conditions);
    forall nodes | IsClosed(nodes, conditions) ensures forall c :: c in Flatten(conditions) ==> c in nodes {
      FlattenIsLeast(conditions, nodes);
    }
  }

  lemma {:induction false} FlattenIsClosed(conditions: seq<Condition>)
    ensures forall i :: 0 <= i < |conditions| ==> conditions[i] in Flatten(conditions)
    ensures forall c, i :: c in Flatten(conditions) && 0 <= i < |c.conditions.Elems()| ==>
      c.conditions.Elems()[i] in Flatten(conditions)
    decreases conditions
  {
    if conditions != [] {
      var head, rest := conditions[0], conditions[1..];
      var under := if head.conditions.Of? then Flatten(head.conditions.elems) else [];
      assert Flatten(conditions) == [head] + under + Flatten(rest);
      FlattenIsClosed(rest);
      if head.conditions.Of? {
        FlattenIsClosed(head.conditions.elems);
      }
      forall i | 0 <= i < |conditions| ensures conditions[i] in Flatten(conditions) {
        if i > 0 { assert rest[i - 1] == conditions[i]; }
      }
    }
  }

  lemma {:induction false} FlattenIsLeast(conditions: seq<Condition>, nodes: iset<Condition>)
    requires IsClosed(nodes, conditions)
    ensures forall c :: c in Flatten(conditions) ==> c in nodes
    decreases conditions
  {
    if conditions != [] {
      var head, rest := conditions[0], conditions[1..];
      assert forall i :: 0 <= i < |rest| ==> rest[i] == conditions[i + 1];
      FlattenIsLeast(rest, nodes);
      if head.conditions.Of? {
        assert head.conditions.Elems() == head.conditions.elems;
        FlattenIsLeast(head.conditions.elems, nodes);
      }
    }
  }

  /** A clause matches by its operator and its values: any `inSegment` clause when
      no segment is wanted, otherwise one that lists the wanted key, where a null
      reads as the empty key. */
  lemma ClauseMatchesExactlyWhen(c: Condition, key: string)
    ensures ClauseMatches(c, None) <==> c.op == "inSegment"
    ensures ClauseMatches(c, Some(key)) <==>
      c.op == "inSegment" && (RawString(key) in c.values.Elems() || (key == "" && RawNull in c.values.Elems()))
  {
    var values := c.values.Elems();
    if c.op == "inSegment" && RawString(key) in values {
      var i :| 0 <= i < |values| && values[i] == RawString(key);
      assert values[i].AsString() == Some(key);
    } else if c.op == "inSegment" && key == "" && RawNull in values {
      var i :| 0 <= i < |values| && values[i] == RawNull;
      assert values[i].AsString() == Some(key);
    }
  }

  predicate RuleUsesInSegment(conditions: Slice<Condition>, wanted: Option<string>) {
    UsesInSegment(conditions.Elems(), wanted)
  }

  /** A flag names a segment when one of its rules does, at any depth. */
  predicate FlagNames(flag: Flag, segmentKey: string) {
    exists i :: 0 <= i < |flag.rules.Elems()| && RuleUsesInSegment(flag.rules.Elems()[i].conditions, Some(segmentKey))
  }

  /** At any depth of any rule. */
  lemma FlagNamesExactlyWhen(flag: Flag, key: string)
    ensures FlagNames(flag, key) <==>
      exists i, c :: 0 <= i < |flag.rules.Elems()| && c in Flatten(flag.rules.Elems()[i].conditions.Elems())
        && c.op == "inSegment" && (RawString(key) in c.values.Elems() || (key == "" && RawNull in c.values.Elems()))
  {
    var rules := flag.rules.Elems();
    forall i | 0 <= i < |rules|
      ensures RuleUsesInSegment(rules[i].conditions, Some(key))
         <==> exists c :: c in Flatten(rules[i].conditions.Elems()) && c.op == "inSegment"
                && (RawString(key) in c.values.Elems() || (key == "" && RawNull in c.values.Elems()))
    {
      UsesInSegmentIsFlatSearch(rules[i].conditions.Elems(), Some(key));
      forall c ensures ClauseMatches(c, Some(key)) <==>
        c.op == "inSegment" && (RawString(key) in c.values.Elems() || (key == "" && RawNull in c.values.Elems()))
      {
        ClauseMatchesExactlyWhen(c, key);
      }
    }
  }

  /** validateSegment: the limits first, then the ban on recursion. */
  function SegmentError(segment: Segment): Option<Error> {
    if |segment.rules.Elems()| > MAX_SEGMENT_RULES then Some(ErrSegmentLimitExceeded)
    else if |segment.included.Elems()| + |segment.excluded.Elems()| > MAX_SEGMENT_TARGETING_KEYS then
      Some(ErrSegmentLimitExceeded)
    else if exists i :: 0 <= i < |segment.rules.Elems()| && RuleUsesInSegment(segment.rules.Elems()[i].conditions, None) then
      Some(ErrSegmentUsesInSegment)
    else None
  }

  /** What fqdp.md asks of a stored segment, said about the flattened trees. */
  ghost predicate SegmentWithinLimits(segment: Segment) {
    && |segment.rules.Elems()| <= 100
    && |segment.included.Elems()| + |segment.excluded.Elems()| <= 6000
    && forall i, c :: 0 <= i < |segment.rules.Elems()| && c in Flatten(segment.rules.Elems()[i].conditions.Elems()) ==>
         c.op != OP_IN_SEGMENT
  }

  /** A segment passes validation exactly when it is within the limits and no
      clause of it, at any depth, refers to another segment. */
  lemma ValidSegmentsDoNotRecurse(segment: Segment)
    ensures SegmentError(segment).None? <==> SegmentWithinLimits(segment)
  {
    var rules := segment.rules.Elems();
    forall i | 0 <= i < |rules|
      ensures RuleUsesInSegment(rules[i].conditions, None)
         <==> exists c :: c in Flatten(rules[i].conditions.Elems()) && c.op == OP_IN_SEGMENT
    {
      UsesInSegmentIsFlatSearch(rules[i].conditions.Elems(), None);
    }
  }
}
