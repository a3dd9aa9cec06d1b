/** The greylist table and the engine that updates it on each attempt. */
module GreylistEngine {
  import opened GreylistModel

  class Engine {
    var states: Table

    constructor ()
      ensures states == map[]
    {
      states := map[];
    }

    method DeleteExpired(before: int, fails: bool)
      modifies this
      ensures states == if fails then old(states) else Sweep(old(states), before)
    {
      if !fails {
        states := map k | k in states && !(states[k].lastSeen <= before) :: states[k];
      }
    }

    method Save(key: string, s: State, fails: bool)
      modifies this
      ensures states == if fails then old(states) else old(states)[key := s]
    {
      if !fails {
        states := states[key := s];
      }
    }

    /** Sweeps, then answers the attempt and records it. */
    method GreylistResponse(a: Attempt) returns (response: Response)
      modifies this
      ensures (states, response) == Respond(true, old(states), a)
    {
      var rule := a.rule;
      if rule.resetAfter > 0 {
        DeleteExpired(a.now - rule.resetAfter, a.faults.sweep);
      }
      if a.faults.load {
        return ServerError;
      }
      if a.key !in states {
        Save(a.key, State(a.now, a.now, 1), a.faults.save);
        return if a.faults.save then ServerError else Deferred;
      }
      var state := states[a.key];
      if rule.resetAfter > 0 && a.now - state.lastSeen >= rule.resetAfter {
        Save(a.key, State(a.now, a.now, 1), a.faults.save);
        return if a.faults.save then ServerError else Deferred;
      }
      state := state.(attempts := state.attempts + 1);
      state := state.(lastSeen := a.now);
      Save(a.key, state, a.faults.save);
      if a.faults.save {
        return ServerError;
      }
      if state.attempts <= rule.allowAfter {
        return Deferred;
      }
      if rule.minRetryAfter > 0 && a.now - state.firstSeen < rule.minRetryAfter {
        return Deferred;
      }
      return Accepted;
    }
  }
}
