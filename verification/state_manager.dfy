/** Per-user conversation state of `internal/bot/state_manager.go`: what the
    bot waits for next (for example a comment on a task). A read consumes the
    state. The mutex of the source is not modelled. */
module States {
  import opened MenuTypes

  datatype UserState = UserState(waitingFor: string, taskId: int)

  /** Go's zero value, returned together with `false` for a user without state. */
  const NoState := UserState("", 0)

  class StateManager {
    var states: map<UserId, UserState>

    /** `NewStateManager`. */
    constructor ()
      ensures states == map[]
    {
      states := map[];
    }

    /** `Set`: the user's state becomes `state`, replacing any earlier one. */
    method Set(userId: UserId, state: UserState)
      modifies this
      ensures states == old(states)[userId := state]
    {
      states := states[userId := state];
    }

    /** `Get`: returns the stored state and deletes it; reports `false` and the
        zero state when there is none. */
    method Get(userId: UserId) returns (state: UserState, ok: bool)
      modifies this
      ensures ok <==> userId in old(states)
      ensures ok ==> state == old(states)[userId]
      ensures !ok ==> state == NoState
      ensures states == old(states) - {userId}
    {
      ok := userId in states;
      if ok {
        state := states[userId];
        states := states - {userId};
      } else {
        state := NoState;
      }
    }
  }

  /** A state set for a user is read back once: the second read finds nothing,
      and the states of other users are untouched. */
  method SetThenGetTwice(sm: StateManager, userId: UserId, state: UserState)
    returns (first: UserState, firstOk: bool, second: UserState, secondOk: bool)
    modifies sm
    ensures firstOk && first == state
    ensures !secondOk && second == NoState
    ensures sm.states == old(sm.states) - {userId}
  {
    sm.Set(userId, state);
    first, firstOk := sm.Get(userId);
    second, secondOk := sm.Get(userId);
  }
}
