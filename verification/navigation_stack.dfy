/** Per-user menu history of `internal/bot/navigation_stack.go`. The source
    guards the map with a read/write mutex; here every call is one atomic
    step. */
module Navigation {
  import opened MenuTypes

  /** The menu a history shows: its last entry, or the main menu when empty. */
  function Top(history: seq<MenuType>): (m: MenuType)
    ensures |history| == 0 ==> m == MenuMain
    ensures |history| > 0 ==> m == history[|history| - 1]
  {
    if |history| == 0 then MenuMain else history[|history| - 1]
  }

  /** The history after removing its last entry; an empty one stays empty. */
  function Popped(history: seq<MenuType>): (h: seq<MenuType>)
    ensures |history| > 0 ==> h + [history[|history| - 1]] == history
    ensures |history| == 0 ==> h == []
  {
    if |history| == 0 then [] else history[..|history| - 1]
  }

  /** Popping undoes pushing. */
  lemma {:induction false} PoppedPushed(history: seq<MenuType>, m: MenuType)
    ensures Popped(history + [m]) == history
    ensures Top(history + [m]) == m
  {
    assert (history + [m])[..|history|] == history;
  }

  class NavigationStack {
    /** user id -> visited menus, oldest first */
    var stacks: map<UserId, seq<MenuType>>

    /** `NewNavigationStack`: no user has a history. */
    constructor ()
      ensures stacks == map[]
    {
      stacks := map[];
    }

    /** A user's history; a user without an entry has the empty one
        (the source reads the nil slice of a missing key). */
    function History(userId: UserId): (h: seq<MenuType>)
      reads this
      ensures userId in stacks ==> h == stacks[userId]
      ensures userId !in stacks ==> h == []
    {
      if userId in stacks then stacks[userId] else []
    }

    /** `Push`: appends the menu to the user's history, creating it if needed. */
    method Push(userId: UserId, menu: MenuType)
      modifies this
      ensures stacks == old(stacks)[userId := old(History(userId)) + [menu]]
    {
      var history := History(userId);
      stacks := stacks[userId := history + [menu]];
    }

    /** `Pop`: removes and returns the last menu; with an empty history it
        returns the main menu and leaves the stacks untouched. */
    method Pop(userId: UserId) returns (last: MenuType)
      modifies this
      ensures last == Top(old(History(userId)))
      ensures |old(History(userId))| == 0 ==> stacks == old(stacks)
      ensures |old(History(userId))| > 0 ==>
                stacks == old(stacks)[userId := Popped(old(History(userId)))]
    {
      var history := History(userId);
      if |history| == 0 {
        return MenuMain;
      }
      last := history[|history| - 1];
      stacks := stacks[userId := history[..|history| - 1]];
    }

    /** `Current`: the last menu of the history, the main menu when empty;
        nothing changes. */
    method Current(userId: UserId) returns (m: MenuType)
      ensures |History(userId)| == 0 ==> m == MenuMain
      ensures |History(userId)| > 0 ==> m == History(userId)[|History(userId)| - 1]
    {
      var history := History(userId);
      if |history| == 0 {
        return MenuMain;
      }
      m := history[|history| - 1];
    }

    /** `Reset`: forgets the user's history and nobody else's. */
    method Reset(userId: UserId)
      modifies this
      ensures stacks == old(stacks) - {userId}
      ensures History(userId) == []
    {
      stacks := stacks - {userId};
    }

    /** `Depth`: the number of menus in the user's history. */
    method Depth(userId: UserId) returns (depth: int)
      ensures depth == |History(userId)|
      ensures depth >= 0
    {
      depth := |History(userId)|;
    }
  }

  /** The menus of a path, last first. */
  function Reversed(path: seq<MenuType>): (r: seq<MenuType>)
    ensures |r| == |path|
    ensures forall k :: 0 <= k < |path| ==> r[k] == path[|path| - 1 - k]
  {
    if |path| == 0 then [] else [path[|path| - 1]] + Reversed(path[..|path| - 1])
  }

  /** Pushing a path of menus and then popping as many times yields the path
      in reverse order and leaves the user's history as it was. */
  method PushThenPopAll(ns: NavigationStack, userId: UserId, path: seq<MenuType>)
    returns (popped: seq<MenuType>)
    modifies ns
    ensures popped == Reversed(path)
    ensures ns.History(userId) == old(ns.History(userId))
  {
    ghost var start := ns.History(userId);
    for i := 0 to |path|
      invariant ns.History(userId) == start + path[..i]
    {
      ns.Push(userId, path[i]);
      PathStep(start, path, i + 1);
    }
    popped := [];
    var n := |path|;
    while n > 0
      invariant 0 <= n <= |path|
      invariant ns.History(userId) == start + path[..n]
      invariant popped == Reversed(path[n..])
    {
      PathStep(start, path, n);
      var m := ns.Pop(userId);
      popped := popped + [m];
      n := n - 1;
    }
    assert start + path[..0] == start;
    assert path[0..] == path;
  }

  /** The history after `n` steps of the path is the one after `n - 1` steps
      plus the path's `n`-th menu, which popping removes again and which comes
      next in the reversed suffix. */
  lemma {:induction false} PathStep(start: seq<MenuType>, path: seq<MenuType>, n: nat)
    requires 0 < n <= |path|
    ensures start + path[..n] == (start + path[..n - 1]) + [path[n - 1]]
    ensures Popped(start + path[..n]) == start + path[..n - 1]
    ensures Top(start + path[..n]) == path[n - 1]
    ensures Reversed(path[n - 1..]) == Reversed(path[n..]) + [path[n - 1]]
  {
    assert path[..n] == path[..n - 1] + [path[n - 1]];
    PoppedPushed(start + path[..n - 1], path[n - 1]);
    var r := Reversed(path[n - 1..]);
    var q := Reversed(path[n..]) + [path[n - 1]];
    assert |r| == |q|;
    forall k | 0 <= k < |r|
      ensures r[k] == q[k]
    {
      if k < |r| - 1 {
        assert path[n - 1..][|path| - n - k] == path[n..][|path| - n - 1 - k];
      }
    }
  }
}
