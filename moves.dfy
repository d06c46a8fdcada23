/**
 * The legal moves of the Rabbit Leap puzzle (get_successors in rabbit_leap.py).
 *
 * A configuration is a string over 'E' (an east-bound rabbit, which only moves
 * right), 'W' (a west-bound rabbit, which only moves left) and '_' (the empty
 * stone).  A move swaps the empty stone with a rabbit one or two stones away.
 */
module Moves {

  type State = seq<char>

  /** Python's str.find for one character: the first index of c, or -1. */
  function Find(s: State, c: char): (i: int)
    ensures -1 <= i < |s|
    ensures i == -1 <==> c !in s
    ensures 0 <= i ==> s[i] == c && forall k :: 0 <= k < i ==> s[k] != c
  {
    if s == [] then -1
    else if s[0] == c then 0
    else
      var k := Find(s[1..], c);
      if k == -1 then -1 else k + 1
  }

  /** A copy of s with the cells at i and j exchanged. */
  function Swap(s: State, i: nat, j: nat): (r: State)
    requires i < |s| && j < |s|
    ensures |r| == |s| && r[i] == s[j] && r[j] == s[i]
    ensures forall k :: 0 <= k < |s| && k != i && k != j ==> r[k] == s[k]
    ensures multiset(r) == multiset(s)
  {
    s[i := s[j]][j := s[i]]
  }

  /** The four rules, in the order in which the generator tries them. */
  datatype Rule = SlideRight | JumpRight | SlideLeft | JumpLeft

  /** Position of the rule in the generator's order. */
  function Ordinal(m: Rule): nat
  {
    match m
    case SlideRight => 0
    case JumpRight => 1
    case SlideLeft => 2
    case JumpLeft => 3
  }

  /** Where the empty stone goes, relative to where it is. */
  function Offset(m: Rule): int
  {
    match m
    case SlideRight => -1
    case JumpRight => -2
    case SlideLeft => 1
    case JumpLeft => 2
  }

  /** The guard of rule m when the empty stone is at e: E_, EW_, _W and _EW. */
  predicate Fires(s: State, e: nat, m: Rule)
    requires e < |s|
  {
    match m
    case SlideRight => e > 0 && s[e - 1] == 'E'
    case JumpRight => e > 1 && s[e - 2] == 'E' && s[e - 1] == 'W'
    case SlideLeft => e < |s| - 1 && s[e + 1] == 'W'
    case JumpLeft => e < |s| - 2 && s[e + 2] == 'W' && s[e + 1] == 'E'
  }

  /** The configuration rule m produces: the empty stone swapped with the rabbit it names. */
  function Apply(s: State, e: nat, m: Rule): (t: State)
    requires e < |s| && Fires(s, e, m)
    ensures 0 <= e + Offset(m) < |s|
  {
    Swap(s, e, e + Offset(m))
  }

  /** The rules in the order in which get_successors tries them. */
  const GeneratorOrder: seq<Rule> := [SlideRight, JumpRight, SlideLeft, JumpLeft]

  /** Try the rules one after the other, keeping the result of each rule that fires. */
  function Generate(s: State, e: nat, rules: seq<Rule>): (r: seq<State>)
    requires e < |s|
    ensures |r| <= |rules|
    ensures forall t :: t in r ==> |t| == |s| && multiset(t) == multiset(s)
  {
    if rules == [] then []
    else (if Fires(s, e, rules[0]) then [Apply(s, e, rules[0])] else []) + Generate(s, e, rules[1..])
  }

  /**
   * get_successors: the empty stone is the first '_', and the four rules are
   * tried in the order slide-right, jump-right, slide-left, jump-left.
   */
  function Successors(s: State): (r: seq<State>)
    requires '_' in s
    ensures |r| <= 4
    ensures forall t :: t in r ==> |t| == |s| && multiset(t) == multiset(s)
  {
    Generate(s, Find(s, '_'), GeneratorOrder)
  }

  /**
   * What get_successors does on a string without '_': find returns -1, both
   * guards that look left fail, both guards that look right still test
   * state[0] and state[1], and Python reads the index -1 as the last cell, so
   * the last stone is exchanged with the first (slide left) or the second
   * (jump left).
   */
  function StrayMoves(s: State): (r: seq<State>)
    requires '_' !in s
    ensures |r| <= 2
    ensures forall t :: t in r ==> |t| == |s| && multiset(t) == multiset(s)
  {
    (if |s| > 0 && s[0] == 'W' then [Swap(s, |s| - 1, 0)] else []) +
    (if |s| > 1 && s[1] == 'W' && s[0] == 'E' then [Swap(s, |s| - 1, 1)] else [])
  }

  /** get_successors exactly as written, on any string. */
  function SuccessorsAsWritten(s: State): (r: seq<State>)
    ensures |r| <= 4
    ensures '_' !in s ==> |r| <= 2
  {
    if '_' in s then Successors(s) else StrayMoves(s)
  }

  /** The rule that turns s into t, read off from how far the empty stone moved. */
  function RuleOf(s: State, t: State): Rule
  {
    var d := Find(t, '_') - Find(s, '_');
    if d == -1 then SlideRight
    else if d == -2 then JumpRight
    else if d == 1 then SlideLeft
    else JumpLeft
  }

  /** After a move the first '_' sits where the rule sent the empty stone. */
  lemma ApplyMovesEmpty(s: State, m: Rule)
    requires '_' in s && Fires(s, Find(s, '_'), m)
    ensures '_' in Apply(s, Find(s, '_'), m)
    ensures Find(Apply(s, Find(s, '_'), m), '_') == Find(s, '_') + Offset(m)
    ensures RuleOf(s, Apply(s, Find(s, '_'), m)) == m
  {
    var e := Find(s, '_');
    var t := Apply(s, e, m);
    var j := e + Offset(m);
    assert t[j] == '_';
    forall k | 0 <= k < j
      ensures t[k] != '_'
    {
      if k != e {
        assert t[k] == s[k];
      }
    }
  }

  /** Rule lists whose order agrees with the generator's. */
  predicate InRuleOrder(rules: seq<Rule>)
  {
    forall i, j :: 0 <= i < j < |rules| ==> Ordinal(rules[i]) < Ordinal(rules[j])
  }

  /** Every configuration Generate keeps comes from a firing rule of the list. */
  lemma {:induction false} GenerateSound(s: State, e: nat, rules: seq<Rule>)
    requires '_' in s && e == Find(s, '_')
    ensures forall t :: t in Generate(s, e, rules) ==>
      '_' in t && RuleOf(s, t) in rules && Fires(s, e, RuleOf(s, t)) && t == Apply(s, e, RuleOf(s, t))
  {
    if rules != [] {
      GenerateSound(s, e, rules[1..]);
      if Fires(s, e, rules[0]) {
        ApplyMovesEmpty(s, rules[0]);
      }
    }
  }

  /** Every firing rule of the list contributes its configuration. */
  lemma {:induction false} GenerateComplete(s: State, e: nat, rules: seq<Rule>)
    requires e < |s|
    ensures forall m :: m in rules && Fires(s, e, m) ==> Apply(s, e, m) in Generate(s, e, rules)
  {
    if rules != [] {
      GenerateComplete(s, e, rules[1..]);
      assert forall m :: m in rules ==> m == rules[0] || m in rules[1..];
    }
  }

  /** Configurations listed in strictly increasing rule order. */
  predicate RulesIncrease(s: State, r: seq<State>)
  {
    forall i, j :: 0 <= i < j < |r| ==> Ordinal(RuleOf(s, r[i])) < Ordinal(RuleOf(s, r[j]))
  }

  /** Putting a configuration of an earlier rule in front keeps the order. */
  lemma ConsRulesIncrease(s: State, x: State, tail: seq<State>, rest: seq<Rule>)
    requires RulesIncrease(s, tail)
    requires forall t :: t in tail ==> RuleOf(s, t) in rest
    requires forall m :: m in rest ==> Ordinal(RuleOf(s, x)) < Ordinal(m)
    ensures RulesIncrease(s, [x] + tail)
  {
    var r := [x] + tail;
    forall i, j | 0 <= i < j < |r|
      ensures Ordinal(RuleOf(s, r[i])) < Ordinal(RuleOf(s, r[j]))
    {
      assert r[j] == tail[j - 1];
      if i > 0 {
        assert r[i] == tail[i - 1];
      }
    }
  }

  /** Generate lists its configurations in the order of the rules that made them. */
  lemma {:induction false} GenerateOrdered(s: State, e: nat, rules: seq<Rule>)
    requires '_' in s && e == Find(s, '_') && InRuleOrder(rules)
    ensures RulesIncrease(s, Generate(s, e, rules))
  {
    if rules != [] {
      var rest := rules[1..];
      assert InRuleOrder(rest) by {
        forall i, j | 0 <= i < j < |rest| ensures Ordinal(rest[i]) < Ordinal(rest[j]) {
          assert rest[i] == rules[i + 1] && rest[j] == rules[j + 1];
        }
      }
      GenerateOrdered(s, e, rest);
      if Fires(s, e, rules[0]) {
        GenerateSound(s, e, rest);
        ApplyMovesEmpty(s, rules[0]);
        forall m | m in rest ensures Ordinal(rules[0]) < Ordinal(m) {
          var k :| 0 <= k < |rest| && rest[k] == m;
          assert rules[k + 1] == m;
        }
        ConsRulesIncrease(s, Apply(s, e, rules[0]), Generate(s, e, rest), rest);
      }
    }
  }

  /**
   * Each successor is produced by a rule whose guard holds at the empty stone,
   * every rule whose guard holds contributes its configuration, and the
   * successors come in the rule order slide-right, jump-right, slide-left,
   * jump-left, at most one per rule.
   */
  lemma SuccessorsFollowRules(s: State)
    requires '_' in s
    ensures forall t :: t in Successors(s) ==>
      '_' in t && Fires(s, Find(s, '_'), RuleOf(s, t)) && t == Apply(s, Find(s, '_'), RuleOf(s, t))
    ensures forall m :: Fires(s, Find(s, '_'), m) ==> Apply(s, Find(s, '_'), m) in Successors(s)
    ensures forall i, j :: 0 <= i < j < |Successors(s)| ==>
      Ordinal(RuleOf(s, Successors(s)[i])) < Ordinal(RuleOf(s, Successors(s)[j]))
  {
    var e := Find(s, '_');
    GenerateSound(s, e, GeneratorOrder);
    GenerateComplete(s, e, GeneratorOrder);
    GenerateOrdered(s, e, GeneratorOrder);
    forall m ensures m in GeneratorOrder {
      assert m == GeneratorOrder[Ordinal(m)];
    }
  }

  /** The rule behind one successor. */
  lemma SuccessorRule(s: State, t: State) returns (m: Rule)
    requires '_' in s && t in Successors(s)
    ensures Fires(s, Find(s, '_'), m) && t == Apply(s, Find(s, '_'), m)
  {
    SuccessorsFollowRules(s);
    m := RuleOf(s, t);
  }

  /** Swapping i with j is swapping j with i. */
  lemma SwapSymmetric(s: State, i: nat, j: nat)
    requires i < |s| && j < |s|
    ensures Swap(s, i, j) == Swap(s, j, i)
  {
    var a, b := Swap(s, i, j), Swap(s, j, i);
    assert forall k :: 0 <= k < |s| ==> a[k] == b[k];
  }

  /**
   * The puzzle's rules seen from the rabbit at i that moves onto the empty
   * stone at j: an east-bound rabbit slides one stone right or jumps right
   * over a west-bound one; a west-bound rabbit slides one stone left or
   * jumps left over an east-bound one.
   */
  predicate Leap(s: State, i: nat, j: nat)
    requires i < |s| && j < |s|
  {
    s[j] == '_' &&
    ((s[i] == 'E' && (j == i + 1 || (j == i + 2 && s[i + 1] == 'W'))) ||
     (s[i] == 'W' && (j + 1 == i || (j + 2 == i && s[i - 1] == 'E'))))
  }

  /** t is s after one legal slide or jump, wherever it happens. */
  ghost predicate LegalMove(s: State, t: State)
  {
    exists i: nat, j: nat :: i < |s| && j < |s| && Leap(s, i, j) && t == Swap(s, i, j)
  }

  /** A well-formed configuration: exactly one empty stone. */
  predicate OneEmpty(s: State)
  {
    '_' in s && forall a, b :: 0 <= a < b < |s| && s[a] == '_' ==> s[b] != '_'
  }

  /** Every configuration the generator produces is a legal move. */
  lemma SuccessorIsLegal(s: State, t: State)
    requires '_' in s && t in Successors(s)
    ensures LegalMove(s, t)
  {
    var e := Find(s, '_');
    var m := SuccessorRule(s, t);
    var i := e + Offset(m);
    SwapSymmetric(s, e, i);
    assert Leap(s, i, e) && t == Swap(s, i, e);
  }

  /** With one empty stone, every legal move is produced by the generator. */
  lemma LegalIsSuccessor(s: State, t: State)
    requires OneEmpty(s) && LegalMove(s, t)
    ensures t in Successors(s)
  {
    var e := Find(s, '_');
    var i: nat, j: nat :| i < |s| && j < |s| && Leap(s, i, j) && t == Swap(s, i, j);
    assert j == e;
    SwapSymmetric(s, i, j);
    var m := if i + 1 == e then SlideRight else if i + 2 == e then JumpRight
             else if i == e + 1 then SlideLeft else JumpLeft;
    assert Fires(s, e, m) && Apply(s, e, m) == t;
    SuccessorsFollowRules(s);
  }

  /**
   * On a configuration with one empty stone the generator produces exactly
   * the legal moves of the puzzle.
   */
  lemma SuccessorIffLegalMove(s: State, t: State)
    requires OneEmpty(s)
    ensures t in Successors(s) <==> LegalMove(s, t)
  {
    if t in Successors(s) {
      SuccessorIsLegal(s, t);
    }
    if LegalMove(s, t) {
      LegalIsSuccessor(s, t);
    }
  }

  /** Rabbit weights for the progress measure: E counts +1, W counts -1. */
  function Weight(c: char): int
  {
    if c == 'E' then 1 else if c == 'W' then -1 else 0
  }

  /** The sum of the positions of the E rabbits minus that of the W rabbits. */
  function Progress(s: State): int
  {
    if s == [] then 0 else Progress(s[..|s| - 1]) + Weight(s[|s| - 1]) * (|s| - 1)
  }

  /** Overwriting cell k changes the measure by the change of weight at k, times k. */
  lemma {:induction false} ProgressUpdate(s: State, k: nat, c: char)
    requires k < |s|
    ensures Progress(s[k := c]) == Progress(s) + (Weight(c) - Weight(s[k])) * k
  {
    var n := |s| - 1;
    if k == n {
      assert s[k := c][..n] == s[..n];
    } else {
      assert s[k := c][..n] == s[..n][k := c];
      ProgressUpdate(s[..n], k, c);
    }
  }

  /** Moving the rabbit at i onto the empty stone at e changes the measure by its weight times e - i. */
  lemma SwapEmptyProgress(s: State, e: nat, i: nat)
    requires e < |s| && i < |s| && e != i && s[e] == '_'
    ensures Progress(Swap(s, e, i)) == Progress(s) + Weight(s[i]) * (e - i)
  {
    SwapEmpty(s, e, i);
    ProgressAfterFill(s, e, i);
    ProgressAfterClear(s, e, i);
    Distribute(Progress(s), Weight(s[i]), e, i);
  }

  /** First half of the move: the rabbit's weight now also counts at e. */
  lemma ProgressAfterFill(s: State, e: nat, i: nat)
    requires e < |s| && i < |s| && s[e] == '_'
    ensures Progress(s[e := s[i]]) == Progress(s) + Weight(s[i]) * e
  {
    ProgressUpdate(s, e, s[i]);
  }

  /** Second half of the move: the cell the rabbit left no longer counts. */
  lemma ProgressAfterClear(s: State, e: nat, i: nat)
    requires e < |s| && i < |s| && e != i
    ensures Progress(s[e := s[i]][i := '_']) == Progress(s[e := s[i]]) - Weight(s[i]) * i
  {
    ProgressUpdate(s[e := s[i]], i, '_');
  }

  /** Swapping with the empty stone is filling the empty cell, then emptying the other. */
  lemma SwapEmpty(s: State, e: nat, i: nat)
    requires e < |s| && i < |s| && e != i && s[e] == '_'
    ensures Swap(s, e, i) == s[e := s[i]][i := '_']
  {
  }

  /** The arithmetic step that joins the two position changes into one distance. */
  lemma Distribute(p: int, w: int, e: int, i: int)
    ensures p + w * e - w * i == p + w * (e - i)
  {
  }

  /** The rabbit a rule moves gains the measure 1 for a slide and 2 for a jump. */
  lemma RuleGain(s: State, e: nat, m: Rule)
    requires e < |s| && Fires(s, e, m)
    ensures 1 <= Weight(s[e + Offset(m)]) * -Offset(m) <= 2
  {
  }

  /**
   * E rabbits only move right and W rabbits only move left: every move raises
   * the measure, by 1 for a slide and by 2 for a jump.
   */
  lemma MoveProgress(s: State, t: State)
    requires '_' in s && t in Successors(s)
    ensures Progress(s) + 1 <= Progress(t) <= Progress(s) + 2
  {
    var e := Find(s, '_');
    var m := SuccessorRule(s, t);
    SwapEmptyProgress(s, e, e + Offset(m));
    RuleGain(s, e, m);
  }
}
