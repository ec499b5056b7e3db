/**
 The reaction toggle shared by post and comment reactions. A reaction list is
 updated with the document store's `$pull` (drop every element matching a
 condition) and `$push` (append at the end); one user keeps at most one
 reaction per list when the list starts out that way.
 */
module Reactions {
  import opened Results
  import opened UserModel

  datatype Reaction = Reaction(user: UserId, react: string)

  /** `$pull: { react, user }`: drop every element equal to `x`, keeping the order of the rest. */
  function Pull(s: seq<Reaction>, x: Reaction): (r: seq<Reaction>)
    ensures |r| <= |s|
    ensures forall y :: y in r <==> y in s && y != x
  {
    if s == [] then [] else (if s[0] == x then [] else [s[0]]) + Pull(s[1..], x)
  }

  /** `$pull: { user }`: drop every reaction by `u`, keeping the order of the rest. */
  function Others(s: seq<Reaction>, u: UserId): (r: seq<Reaction>)
    ensures |r| <= |s|
    ensures forall y :: y in r <==> y in s && y.user != u
  {
    if s == [] then [] else (if s[0].user == u then [] else [s[0]]) + Others(s[1..], u)
  }

  /** The reactions by `u`, in list order. */
  function Mine(s: seq<Reaction>, u: UserId): (r: seq<Reaction>)
    ensures |r| <= |s|
    ensures forall y :: y in r <==> y in s && y.user == u
  {
    if s == [] then [] else (if s[0].user == u then [s[0]] else []) + Mine(s[1..], u)
  }

  /** `reacts.some(reaction => reaction.user === userId)`. */
  predicate HasUser(s: seq<Reaction>, u: UserId)
  {
    exists i :: 0 <= i < |s| && s[i].user == u
  }

  /** At most one reaction per user. */
  ghost predicate Unique(s: seq<Reaction>)
  {
    forall u :: |Mine(s, u)| <= 1
  }

  // ---------------------------------------------------------------------------
  // Facts about the list operations

  lemma {:induction false} PullAppend(a: seq<Reaction>, b: seq<Reaction>, x: Reaction)
    ensures Pull(a + b, x) == Pull(a, x) + Pull(b, x)
    decreases |a|
  {
    if a == [] {
      assert a + b == b;
    } else {
      calc {
        Pull(a + b, x);
        (if a[0] == x then [] else [a[0]]) + Pull((a + b)[1..], x);
        { assert (a + b)[1..] == a[1..] + b; }
        (if a[0] == x then [] else [a[0]]) + Pull(a[1..] + b, x);
        { PullAppend(a[1..], b, x); }
        (if a[0] == x then [] else [a[0]]) + (Pull(a[1..], x) + Pull(b, x));
        ((if a[0] == x then [] else [a[0]]) + Pull(a[1..], x)) + Pull(b, x);
      }
    }
  }

  lemma {:induction false} OthersAppend(a: seq<Reaction>, b: seq<Reaction>, u: UserId)
    ensures Others(a + b, u) == Others(a, u) + Others(b, u)
    decreases |a|
  {
    if a == [] {
      assert a + b == b;
    } else {
      calc {
        Others(a + b, u);
        (if a[0].user == u then [] else [a[0]]) + Others((a + b)[1..], u);
        { assert (a + b)[1..] == a[1..] + b; }
        (if a[0].user == u then [] else [a[0]]) + Others(a[1..] + b, u);
        { OthersAppend(a[1..], b, u); }
        (if a[0].user == u then [] else [a[0]]) + (Others(a[1..], u) + Others(b, u));
        ((if a[0].user == u then [] else [a[0]]) + Others(a[1..], u)) + Others(b, u);
      }
    }
  }

  lemma {:induction false} MineAppend(a: seq<Reaction>, b: seq<Reaction>, u: UserId)
    ensures Mine(a + b, u) == Mine(a, u) + Mine(b, u)
    decreases |a|
  {
    if a == [] {
      assert a + b == b;
    } else {
      calc {
        Mine(a + b, u);
        (if a[0].user == u then [a[0]] else []) + Mine((a + b)[1..], u);
        { assert (a + b)[1..] == a[1..] + b; }
        (if a[0].user == u then [a[0]] else []) + Mine(a[1..] + b, u);
        { MineAppend(a[1..], b, u); }
        (if a[0].user == u then [a[0]] else []) + (Mine(a[1..], u) + Mine(b, u));
        ((if a[0].user == u then [a[0]] else []) + Mine(a[1..], u)) + Mine(b, u);
      }
    }
  }

  lemma {:induction false} PullAbsent(s: seq<Reaction>, x: Reaction)
    requires x !in s
    ensures Pull(s, x) == s
    decreases |s|
  {
    if s != [] {
      assert x !in s[1..] by { assert forall y :: y in s[1..] ==> y in s; }
      PullAbsent(s[1..], x);
    }
  }

  lemma {:induction false} OthersWithoutUser(s: seq<Reaction>, u: UserId)
    requires !HasUser(s, u)
    ensures Others(s, u) == s
    decreases |s|
  {
    if s != [] {
      assert s[0].user != u;
      assert !HasUser(s[1..], u) by {
        forall i | 0 <= i < |s[1..]| ensures s[1..][i].user != u {
          assert s[1..][i] == s[i + 1];
        }
      }
      OthersWithoutUser(s[1..], u);
    }
  }

  lemma HasUserMine(s: seq<Reaction>, u: UserId)
    ensures HasUser(s, u) <==> Mine(s, u) != []
  {
    if HasUser(s, u) {
      var i :| 0 <= i < |s| && s[i].user == u;
      assert s[i] in Mine(s, u);
    }
  }

  lemma {:induction false} OthersOfPull(s: seq<Reaction>, x: Reaction)
    ensures Others(Pull(s, x), x.user) == Others(s, x.user)
    decreases |s|
  {
    if s != [] {
      var head := if s[0] == x then [] else [s[0]];
      OthersAppend(head, Pull(s[1..], x), x.user);
      OthersOfPull(s[1..], x);
    }
  }

  lemma {:induction false} MineOfPull(s: seq<Reaction>, x: Reaction, w: UserId)
    requires x.user != w
    ensures Mine(Pull(s, x), w) == Mine(s, w)
    decreases |s|
  {
    if s != [] {
      var head := if s[0] == x then [] else [s[0]];
      MineAppend(head, Pull(s[1..], x), w);
      MineOfPull(s[1..], x, w);
    }
  }

  lemma {:induction false} MineOfOthers(s: seq<Reaction>, u: UserId, w: UserId)
    requires u != w
    ensures Mine(Others(s, u), w) == Mine(s, w)
    decreases |s|
  {
    if s != [] {
      var head := if s[0].user == u then [] else [s[0]];
      MineAppend(head, Others(s[1..], u), w);
      MineOfOthers(s[1..], u, w);
    }
  }

  lemma NoOthersLeft(s: seq<Reaction>, u: UserId)
    ensures !HasUser(Others(s, u), u)
  {
  }

  // ---------------------------------------------------------------------------
  // The toggle

  /**
   `makeReaction` on one list: the same reaction again removes it; a different
   reaction by the same user replaces all of that user's reactions by the new
   one at the end; a first reaction is appended.
   */
  function Toggle(s: seq<Reaction>, u: UserId, k: string): (r: seq<Reaction>)
    ensures Reaction(u, k) in s ==> Reaction(u, k) !in r && |r| < |s|
    ensures Reaction(u, k) in s ==> forall y :: y in r <==> y in s && y != Reaction(u, k)
    ensures Reaction(u, k) !in s ==> r == Others(s, u) + [Reaction(u, k)]
    ensures !HasUser(s, u) ==> r == s + [Reaction(u, k)]
    ensures Others(r, u) == Others(s, u)
  {
    var mine := Reaction(u, k);
    var sameUser := HasUser(s, u);
    var sameReact := mine in s;
    if sameReact then
      assert |Pull(s, mine)| < |s| by {
        PullCount(s, mine);
      }
      OthersOfPull(s, mine);
      Pull(s, mine)
    else
      var base := if sameUser then Others(s, u) else s;
      assert !sameUser ==> Others(s, u) == s by {
        if !sameUser { OthersWithoutUser(s, u); }
      }
      NoOthersLeft(s, u);
      OthersWithoutUser(Others(s, u), u);
      OthersAppend(base, [mine], u);
      base + [mine]
  }

  lemma {:induction false} PullCount(s: seq<Reaction>, x: Reaction)
    requires x in s
    ensures |Pull(s, x)| < |s|
    decreases |s|
  {
    if s[0] != x {
      assert x in s[1..] by { assert s == [s[0]] + s[1..]; }
      PullCount(s[1..], x);
    }
  }

  /** The toggle never touches another user's reactions. */
  lemma ToggleKeepsOtherUsers(s: seq<Reaction>, u: UserId, k: string, w: UserId)
    requires w != u
    ensures Mine(Toggle(s, u, k), w) == Mine(s, w)
  {
    var mine := Reaction(u, k);
    if mine in s {
      MineOfPull(s, mine, w);
    } else {
      var base := if HasUser(s, u) then Others(s, u) else s;
      MineAppend(base, [mine], w);
      if HasUser(s, u) { MineOfOthers(s, u, w); }
    }
  }

  /** Starting from at most one reaction per user, the toggle leaves `u` with none (same reaction) or exactly the new one. */
  lemma ToggleOwnReactions(s: seq<Reaction>, u: UserId, k: string)
    requires Unique(s)
    ensures Mine(Toggle(s, u, k), u) == if Reaction(u, k) in s then [] else [Reaction(u, k)]
  {
    var mine := Reaction(u, k);
    var r := Toggle(s, u, k);
    if mine in s {
      assert Mine(r, u) == [] by {
        if Mine(r, u) != [] {
          var y := Mine(r, u)[0];
          assert y in s && y.user == u && y != mine;
          assert y in Mine(s, u) && mine in Mine(s, u);
          SingletonMembers(Mine(s, u), y, mine);
        }
      }
    } else {
      NoOthersLeft(s, u);
      HasUserMine(Others(s, u), u);
      MineAppend(Others(s, u), [mine], u);
    }
  }

  lemma SingletonMembers(t: seq<Reaction>, a: Reaction, b: Reaction)
    requires |t| <= 1 && a in t && b in t
    ensures a == b
  {
  }

  /** At most one reaction per user is an invariant of the toggle. */
  lemma ToggleUnique(s: seq<Reaction>, u: UserId, k: string)
    requires Unique(s)
    ensures Unique(Toggle(s, u, k))
  {
    forall w ensures |Mine(Toggle(s, u, k), w)| <= 1 {
      if w == u {
        ToggleOwnReactions(s, u, k);
      } else {
        ToggleKeepsOtherUsers(s, u, k, w);
      }
    }
  }

  /** From a list without any reaction by `u`, reacting twice the same way restores the list. */
  lemma ToggleTwice(s: seq<Reaction>, u: UserId, k: string)
    requires !HasUser(s, u)
    ensures Toggle(Toggle(s, u, k), u, k) == s
  {
    var mine := Reaction(u, k);
    assert mine !in s;
    var once := Toggle(s, u, k);
    assert once == s + [mine];
    assert mine in once;
    PullAppend(s, [mine], mine);
    PullAbsent(s, mine);
    assert Pull([mine], mine) == [];
  }

  /** Reacting one way and then another leaves exactly the second reaction for that user. */
  lemma ToggleSwitch(s: seq<Reaction>, u: UserId, a: string, b: string)
    requires Unique(s) && a != b
    ensures Mine(Toggle(Toggle(s, u, a), u, b), u) == [Reaction(u, b)]
  {
    var once := Toggle(s, u, a);
    ToggleUnique(s, u, a);
    ToggleOwnReactions(s, u, a);
    ToggleOwnReactions(once, u, b);
  }

  // ---------------------------------------------------------------------------
  // Reference semantics: each user holds at most one reaction kind

  /** The kind `u` holds in the list, if any. */
  function KindOf(s: seq<Reaction>, u: UserId): Option<string>
  {
    if Mine(s, u) == [] then None else Some(Mine(s, u)[0].react)
  }

  /** The toggle on a single user's slot: the same kind clears it, anything else sets it. */
  function ToggleKind(held: Option<string>, k: string): Option<string>
  {
    if held == Some(k) then None else Some(k)
  }

  /**
   For lists with at most one reaction per user, the toggle is the pointwise
   update of the user-to-kind map: `u`'s slot is toggled, every other slot is kept.
   */
  lemma ToggleRefinesKindMap(s: seq<Reaction>, u: UserId, k: string, w: UserId)
    requires Unique(s)
    ensures KindOf(Toggle(s, u, k), w) == if w == u then ToggleKind(KindOf(s, u), k) else KindOf(s, w)
  {
    if w != u {
      ToggleKeepsOtherUsers(s, u, k, w);
    } else {
      ToggleKindOfToggler(s, u, k);
    }
  }

  lemma ToggleKindOfToggler(s: seq<Reaction>, u: UserId, k: string)
    requires Unique(s)
    ensures KindOf(Toggle(s, u, k), u) == ToggleKind(KindOf(s, u), k)
  {
    ToggleOwnReactions(s, u, k);
    var mine := Reaction(u, k);
    var held := Mine(s, u);
    assert |held| <= 1;
    if mine in s {
      assert mine in held;
      assert held == [mine];
      assert KindOf(s, u) == Some(k);
    } else if held != [] {
      assert held[0] in held;
      assert held[0] in s && held[0].user == u;
      assert held[0] != mine;
      assert KindOf(s, u) == Some(held[0].react) && held[0].react != k;
    } else {
      assert KindOf(s, u) == None;
    }
  }
}
