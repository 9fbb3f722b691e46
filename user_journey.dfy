/**
 * A customer journey: a directed graph whose vertices are `State`s and whose
 * edges are the `Condition`s that move a customer from one state to the next,
 * together with the state the customer is in now.
 */
module UserJourneys {
  import opened Wrappers
  import opened JGraphs
  import opened States

  /** `Condition.ConditionType`. */
  datatype ConditionType = LATE_PAYMENT | PAYMENT_ON_TIME | RESTRUCTURING | PROMOTION_APPROVED

  /** `Condition`: an event with its attributes; equal when type and attributes are equal. */
  datatype Condition = Condition(conditionType: ConditionType, attributes: Attributes)

  /** `UserJourneyId`. */
  datatype UserJourneyId = UserJourneyId(value: string)

  type JourneyGraph = LabelledGraph<State, Condition>

  /** `condition` is an edge of `edges` leaving `state`. */
  predicate Leaves(edges: map<Condition, (State, State)>, condition: Condition, state: State)
  {
    condition in edges && edges[condition].0 == state
  }

  /**
   * `UserJourney`: the graph is shared, not copied, with the builder that
   * filled it; `currentState` is None when the builder was never given one.
   */
  datatype UserJourney = UserJourney(userJourneyId: UserJourneyId, graph: JourneyGraph, currentState: Option<State>)
  {
    /**
     * `onFulfilled`: when `condition` leaves the current state the journey
     * moves to its target, otherwise the journey is returned as it is. Asking
     * the graph for the outgoing edges of a missing current state throws:
     * `NullPointerException` when there is none, `IllegalArgumentException`
     * when it is not a vertex.
     */
    function OnFulfilled(condition: Condition): (r: Result<UserJourney>)
      reads graph
      ensures currentState.None? ==> r == Thrown(NullPointerException)
      ensures currentState.Some? && currentState.value !in graph.vertices ==> r == Thrown(IllegalArgumentException)
      ensures currentState.Some? && currentState.value in graph.vertices ==> r.Ok?
      ensures r.Ok? ==> r.value.userJourneyId == userJourneyId && r.value.graph == graph
      ensures r.Ok? && Leaves(graph.edges, condition, currentState.value) ==>
                r.value.currentState == Some(graph.edges[condition].1)
      ensures r.Ok? && !Leaves(graph.edges, condition, currentState.value) ==> r.value == this
    {
      if currentState.None? then Thrown(NullPointerException)
      else if currentState.value !in graph.vertices then Thrown(IllegalArgumentException)
      else if Leaves(graph.edges, condition, currentState.value) then
        Ok(UserJourney(userJourneyId, graph, Some(graph.edges[condition].1)))
      else Ok(this)
    }

    /** The current state is a vertex of a well-formed graph. */
    ghost predicate Positioned()
      reads graph
    {
      graph.Valid() && currentState.Some? && currentState.value in graph.vertices
    }
  }

  /** `onFulfilled` applied to each condition in turn, stopping at the first exception. */
  function FulfilAll(journey: UserJourney, conditions: seq<Condition>): (r: Result<UserJourney>)
    reads journey.graph
    ensures r.Ok? ==> r.value.graph == journey.graph && r.value.userJourneyId == journey.userJourneyId
    decreases |conditions|
  {
    if conditions == [] then Ok(journey)
    else
      match journey.OnFulfilled(conditions[0])
      case Thrown(exception) => Thrown(exception)
      case Ok(next) => FulfilAll(next, conditions[1..])
  }

  /** `conditions` lead edge by edge from `from` to `to`. */
  ghost predicate IsPath(edges: map<Condition, (State, State)>, from: State, conditions: seq<Condition>, to: State)
    decreases |conditions|
  {
    if conditions == [] then from == to
    else Leaves(edges, conditions[0], from) && IsPath(edges, edges[conditions[0]].1, conditions[1..], to)
  }

  /** A positioned journey stays positioned: every `onFulfilled` succeeds and lands on a vertex. */
  lemma OnFulfilledStaysInGraph(journey: UserJourney, condition: Condition)
    requires journey.Positioned()
    ensures journey.OnFulfilled(condition).Ok?
    ensures journey.OnFulfilled(condition).value.Positioned()
  {
    var next := journey.OnFulfilled(condition).value;
    if Leaves(journey.graph.edges, condition, journey.currentState.value) {
      var target := journey.graph.edges[condition].1;
      assert journey.graph.edges[condition] in journey.graph.edges.Values;
      assert target in Endpoints(journey.graph.edges.Values);
    }
  }

  /** Fulfilling the same condition twice moves no further than fulfilling it once. */
  lemma OnFulfilledIdempotent(journey: UserJourney, condition: Condition)
    requires journey.Positioned()
    ensures journey.OnFulfilled(condition).Ok?
    ensures journey.OnFulfilled(condition).value.OnFulfilled(condition) == journey.OnFulfilled(condition)
  {
    OnFulfilledStaysInGraph(journey, condition);
  }

  /** Conditions that form a path from the current state take the journey to the path's end. */
  lemma {:induction false} FulfilAllFollowsPath(journey: UserJourney, conditions: seq<Condition>, to: State)
    requires journey.currentState.Some? && journey.currentState.value in journey.graph.vertices
    requires journey.graph.Valid()
    requires IsPath(journey.graph.edges, journey.currentState.value, conditions, to)
    ensures FulfilAll(journey, conditions) == Ok(UserJourney(journey.userJourneyId, journey.graph, Some(to)))
    decreases |conditions|
  {
    if conditions != [] {
      OnFulfilledStaysInGraph(journey, conditions[0]);
      var next := journey.OnFulfilled(conditions[0]).value;
      FulfilAllFollowsPath(next, conditions[1..], to);
    }
  }

  /** A positioned journey stays positioned through any sequence of fulfilled conditions. */
  lemma {:induction false} FulfilAllStaysInGraph(journey: UserJourney, conditions: seq<Condition>)
    requires journey.Positioned()
    ensures FulfilAll(journey, conditions).Ok?
    ensures FulfilAll(journey, conditions).value.Positioned()
    decreases |conditions|
  {
    if conditions != [] {
      OnFulfilledStaysInGraph(journey, conditions[0]);
      FulfilAllStaysInGraph(journey.OnFulfilled(conditions[0]).value, conditions[1..]);
    }
  }

  /** Adding an edge under a new label adds its endpoints to those of the graph. */
  lemma EndpointsOfNewLabel(edges: map<Condition, (State, State)>, condition: Condition, source: State, target: State)
    requires condition !in edges
    ensures Endpoints(edges[condition := (source, target)].Values) == Endpoints(edges.Values) + {source, target}
  {
    var updated := edges[condition := (source, target)];
    forall pair | pair in edges.Values
      ensures pair in updated.Values
    {
      var c :| c in edges && edges[c] == pair;
      assert updated[c] == pair;
    }
    forall pair | pair in updated.Values
      ensures pair in edges.Values + {(source, target)}
    {
      var c :| c in updated && updated[c] == pair;
      if c != condition {
        assert edges[c] == pair;
      }
    }
    assert updated[condition] == (source, target);
    assert updated.Values == edges.Values + {(source, target)};
    EndpointsOfInsert(edges.Values, source, target);
  }

  /** The journey builder (`UserJourney.builder(id)` … `build()`). */
  class Builder {
    const userJourneyId: UserJourneyId
    const graph: JourneyGraph
    var currentState: Option<State>

    /** `UserJourney.builder(id)`: an empty graph and no current state. */
    constructor (userJourneyId: UserJourneyId)
      ensures this.userJourneyId == userJourneyId
      ensures fresh(graph)
      ensures graph.vertices == {} && graph.edges == map[]
      ensures graph.Valid()
      ensures currentState == None
    {
      this.userJourneyId := userJourneyId;
      graph := new LabelledGraph();
      currentState := None;
    }

    /** `from(state)`: adds `state` as a vertex and starts a transition from it. */
    method From(state: State) returns (transition: TransitionBuilder)
      modifies graph
      ensures graph.vertices == old(graph.vertices) + {state}
      ensures graph.edges == old(graph.edges)
      ensures fresh(transition)
      ensures transition.builder == this && transition.fromState == state
    {
      graph.AddVertex(state);
      transition := new TransitionBuilder(this, state);
    }

    /** `withCurrentState(state)`. */
    method WithCurrentState(state: State) returns (self: Builder)
      modifies this
      ensures currentState == Some(state)
      ensures self == this
    {
      currentState := Some(state);
      self := this;
    }

    /** `build()`: a journey over this builder's graph (shared, not copied). */
    method Build() returns (journey: UserJourney)
      ensures journey == UserJourney(userJourneyId, graph, currentState)
    {
      journey := UserJourney(userJourneyId, graph, currentState);
    }
  }

  /** `TransitionBuilder`: a transition whose source state is known. */
  class TransitionBuilder {
    const builder: Builder
    const fromState: State

    constructor (builder: Builder, fromState: State)
      ensures this.builder == builder && this.fromState == fromState
    {
      this.builder := builder;
      this.fromState := fromState;
    }

    /** `on(condition)`. */
    method On(condition: Condition) returns (transition: TransitionWithCondition)
      ensures fresh(transition)
      ensures transition.builder == builder && transition.fromState == fromState && transition.condition == condition
    {
      transition := new TransitionWithCondition(builder, fromState, condition);
    }
  }

  /** `TransitionWithCondition`: a transition whose source state and condition are known. */
  class TransitionWithCondition {
    const builder: Builder
    const fromState: State
    const condition: Condition

    constructor (builder: Builder, fromState: State, condition: Condition)
      ensures this.builder == builder && this.fromState == fromState && this.condition == condition
    {
      this.builder := builder;
      this.fromState := fromState;
      this.condition := condition;
    }

    /**
     * `goto_(toState)`: adds `toState` as a vertex and the condition as an edge
     * from `fromState` to it. `from` made `fromState` a vertex, and nothing
     * removes vertices; the graph keeps any earlier edge with this condition
     * or between these two states.
     */
    method Goto(toState: State) returns (self: Builder)
      requires fromState in builder.graph.vertices
      modifies builder.graph
      ensures builder.graph.vertices == old(builder.graph.vertices) + {toState}
      ensures condition in old(builder.graph.edges) || (fromState, toState) in old(builder.graph.edges).Values ==>
                builder.graph.edges == old(builder.graph.edges)
      ensures condition !in old(builder.graph.edges) && (fromState, toState) !in old(builder.graph.edges).Values ==>
                builder.graph.edges == old(builder.graph.edges)[condition := (fromState, toState)]
      ensures old(builder.graph.Valid()) ==> builder.graph.Valid()
      ensures self == builder
    {
      builder.graph.AddVertex(toState);
      ghost var before := builder.graph.edges;
      builder.graph.AddEdge(fromState, toState, condition);
      if builder.graph.edges != before {
        EndpointsOfNewLabel(before, condition, fromState, toState);
      }
      self := builder;
    }
  }

  /** The two-step journey of the chained-transitions scenario: each condition moves the customer one state on. */
  method ChainOfTransitions() returns (afterStep1: Result<UserJourney>, afterStep2: Result<UserJourney>)
    ensures afterStep1.Ok? && afterStep1.value.currentState == Some(State({Product(PENALTY, map[])}))
    ensures afterStep2.Ok? && afterStep2.value.currentState == Some(State({Product(DISCOUNT, map["percentage" := IntAttribute(10)])}))
  {
    var state1 := State({Product(NEW_LOAN, map[])});
    var state2 := State({Product(PENALTY, map[])});
    var state3 := State({Product(DISCOUNT, map["percentage" := IntAttribute(10)])});
    var step1 := Condition(PAYMENT_ON_TIME, map[]);
    var step2 := Condition(PROMOTION_APPROVED, map[]);
    var builder := new Builder(UserJourneyId("user-2"));
    var t1 := builder.From(state1);
    var c1 := t1.On(step1);
    var _ := c1.Goto(state2);
    var t2 := builder.From(state2);
    var c2 := t2.On(step2);
    var _ := c2.Goto(state3);
    var _ := builder.WithCurrentState(state1);
    var journey := builder.Build();
    assert Leaves(journey.graph.edges, step1, state1);
    afterStep1 := journey.OnFulfilled(step1);
    assert Leaves(afterStep1.value.graph.edges, step2, state2);
    afterStep2 := afterStep1.value.OnFulfilled(step2);
  }
}
