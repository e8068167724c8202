/** The team-selection state machine of the `Home` page (src/app/page.tsx).
    Each React state update of a handler is one pure transition
    `State -> State`; the React scheduling around it is not modelled. */
module Selection {
  import opened Wrappers
  import opened Players
  import Seqs

  /** The page's state: the batting order, the two role holders and whether
      the success modal is open. */
  datatype State = State(
    selected: seq<Player>,
    captain: Option<Player>,
    wicketKeeper: Option<Player>,
    showSuccess: bool)

  /** The state the page starts in (and `handleReset` returns to): a valid
      state with no player, no role holder and the success modal closed. */
  function Initial(): (r: State)
    ensures Valid(r)
    ensures |r.selected| == 0 && r.captain.None? && r.wicketKeeper.None? && !r.showSuccess
  {
    State([], None, None, false)
  }

  /** Both role holders are members of the selection. */
  predicate RolesSelected(st: State) {
    && (st.captain.Some? ==> st.captain.value in st.selected)
    && (st.wicketKeeper.Some? ==> st.wicketKeeper.value in st.selected)
  }

  /** The invariant the user interface maintains: at most eleven players, no
      id twice, and both roles held by selected players. */
  predicate Valid(st: State)
    ensures Valid(st) ==> forall p | p in st.selected :: multiset(st.selected)[p] == 1
  {
    UniqueOnce(st.selected);
    && |st.selected| <= TOTAL_PLAYERS
    && UniqueIds(st.selected)
    && RolesSelected(st)
  }

  /** `canSelectPlayer`: the team has room and the player is not in it yet. */
  function CanSelect(st: State, p: Player): (r: bool)
    ensures r <==> |st.selected| < TOTAL_PLAYERS && p.id !in Ids(st.selected)
  {
    if |st.selected| >= TOTAL_PLAYERS then false
    else if HasId(st.selected, p.id) then
      var i :| 0 <= i < |st.selected| && st.selected[i].id == p.id;
      assert Ids(st.selected)[i] == p.id;
      false
    else
      assert forall i | 0 <= i < |st.selected| :: Ids(st.selected)[i] != p.id;
      true
  }

  /** `ps.filter(p => p.id !== id)` */
  function RemoveId(ps: seq<Player>, id: string): (r: seq<Player>)
    ensures |r| <= |ps|
    ensures forall q {:trigger q in r} :: q in r <==> q in ps && q.id != id
    ensures UniqueIds(ps) ==> UniqueIds(r)
  {
    if |ps| == 0 then []
    else
      var rest := RemoveId(ps[1..], id);
      if ps[0].id == id then rest
      else
        assert UniqueIds(ps) ==> forall q | q in rest :: q.id != ps[0].id by {
          if UniqueIds(ps) {
            forall q | q in rest ensures q.id != ps[0].id {
              var k :| 0 <= k < |ps[1..]| && ps[1..][k] == q;
              assert ps[k + 1] == q;
            }
          }
        }
        [ps[0]] + rest
  }

  /** `role?.id === id ? null : role`: the role update made when the player
      with `id` leaves the team. */
  function ClearIfId(role: Option<Player>, id: string): (r: Option<Player>)
    ensures r.Some? ==> r == role && r.value.id != id
    ensures role.Some? && role.value.id != id ==> r == role
  {
    if role.Some? && role.value.id == id then None else role
  }

  /** `handleSelectPlayer`: removes a selected player (clearing any role they
      hold), appends an unselected one when `canSelectPlayer` allows it, and
      otherwise leaves the state alone. */
  function SelectPlayer(st: State, p: Player): (r: State)
    ensures r.showSuccess == st.showSuccess
    ensures HasId(st.selected, p.id) ==>
      && r.selected == RemoveId(st.selected, p.id)
      && (forall q :: q in r.selected <==> q in st.selected && q.id != p.id)
      && r.captain == ClearIfId(st.captain, p.id)
      && r.wicketKeeper == ClearIfId(st.wicketKeeper, p.id)
    ensures !HasId(st.selected, p.id) && |st.selected| < TOTAL_PLAYERS ==>
      r == st.(selected := st.selected + [p])
    ensures !HasId(st.selected, p.id) && |st.selected| >= TOTAL_PLAYERS ==> r == st
  {
    if HasId(st.selected, p.id) then
      st.(selected := RemoveId(st.selected, p.id),
          captain := ClearIfId(st.captain, p.id),
          wicketKeeper := ClearIfId(st.wicketKeeper, p.id))
    else if CanSelect(st, p) then
      st.(selected := st.selected + [p])
    else
      st
  }

  /** `prev?.id === player?.id ? null : player`: the functional update shared
      by `handleSetCaptain` and `handleSetWicketKeeper`. Two absent players
      compare equal (`undefined === undefined`); an absent and a present one
      never do. */
  function ToggleRole(prev: Option<Player>, p: Option<Player>): (r: Option<Player>)
    ensures p.None? ==> r.None?
    ensures p.Some? && prev.Some? && prev.value.id == p.value.id ==> r.None?
    ensures p.Some? && (prev.None? || prev.value.id != p.value.id) ==> r == p
  {
    if prev.None? && p.None? then None
    else if prev.Some? && p.Some? && prev.value.id == p.value.id then None
    else p
  }

  /** `handleSetCaptain`. Membership of `p` in the team is not checked. */
  function SetCaptain(st: State, p: Option<Player>): (r: State)
    ensures r.selected == st.selected && r.wicketKeeper == st.wicketKeeper
    ensures r.showSuccess == st.showSuccess
    ensures r.captain == ToggleRole(st.captain, p)
    ensures r.captain.Some? ==> r.captain == p && (st.captain.None? || st.captain.value.id != p.value.id)
  {
    st.(captain := ToggleRole(st.captain, p))
  }

  /** `handleSetWicketKeeper`, symmetric to `SetCaptain`. */
  function SetWicketKeeper(st: State, p: Option<Player>): (r: State)
    ensures r.selected == st.selected && r.captain == st.captain
    ensures r.showSuccess == st.showSuccess
    ensures r.wicketKeeper == ToggleRole(st.wicketKeeper, p)
    ensures r.wicketKeeper.Some? ==>
      r.wicketKeeper == p && (st.wicketKeeper.None? || st.wicketKeeper.value.id != p.value.id)
  {
    st.(wicketKeeper := ToggleRole(st.wicketKeeper, p))
  }

  /** `handleReorderPlayers`: the new list replaces the selection as given. */
  function Reorder(st: State, order: seq<Player>): (r: State)
    ensures r.selected == order
    ensures r.captain == st.captain && r.wicketKeeper == st.wicketKeeper
    ensures r.showSuccess == st.showSuccess
  {
    st.(selected := order)
  }

  /** The guard of `handleSubmit`: eleven players, a captain and a keeper. */
  predicate ReadyToSubmit(st: State) {
    |st.selected| == 11 && st.captain.Some? && st.wicketKeeper.Some?
  }

  /** `handleSubmit`: opens the success modal when the team is ready; nothing
      else changes. */
  function Submit(st: State): (r: State)
    ensures r.selected == st.selected && r.captain == st.captain && r.wicketKeeper == st.wicketKeeper
    ensures r.showSuccess <==> st.showSuccess || (|st.selected| == 11 && st.captain.Some? && st.wicketKeeper.Some?)
  {
    if ReadyToSubmit(st) then st.(showSuccess := true) else st
  }

  /** `handleReset`: whatever the prior state, an empty team with no roles and
      the success modal closed. */
  function Reset(st: State): (r: State)
    ensures r.selected == [] && r.captain.None? && r.wicketKeeper.None? && !r.showSuccess
  {
    Initial()
  }

  /** The success modal's `onClose`: the modal closes and the team, captain
      and keeper stay as they are. */
  function CloseModal(st: State): (r: State)
    ensures r.selected == st.selected && r.captain == st.captain && r.wicketKeeper == st.wicketKeeper
    ensures !r.showSuccess
  {
    st.(showSuccess := false)
  }

  // ---------------------------------------------------------------------
  // Removal
  // ---------------------------------------------------------------------

  /** Filtering out an id nobody has changes nothing. */
  lemma {:induction false} RemoveAbsent(ps: seq<Player>, id: string)
    requires !HasId(ps, id)
    ensures RemoveId(ps, id) == ps
  {
    if |ps| > 0 {
      assert !HasId(ps[1..], id) by {
        forall i | 0 <= i < |ps[1..]| ensures ps[1..][i].id != id {
          assert ps[1..][i] == ps[i + 1];
        }
      }
      RemoveAbsent(ps[1..], id);
    }
  }

  /** In a list with unique ids, filtering out the id held at position `k`
      removes exactly that entry and keeps the others in order. */
  lemma {:induction false} RemoveAt(ps: seq<Player>, k: nat)
    requires UniqueIds(ps)
    requires k < |ps|
    ensures RemoveId(ps, ps[k].id) == ps[..k] + ps[k + 1..]
  {
    var id := ps[k].id;
    if k == 0 {
      assert !HasId(ps[1..], id) by {
        forall i | 0 <= i < |ps[1..]| ensures ps[1..][i].id != id {
          assert ps[1..][i] == ps[i + 1];
        }
      }
      RemoveAbsent(ps[1..], id);
    } else {
      var tail := ps[1..];
      var u, v := tail[..k - 1], tail[k..];
      assert RemoveId(tail, id) == u + v by {
        UniqueTail(ps);
        assert tail[k - 1] == ps[k];
        RemoveAt(tail, k - 1);
      }
      assert RemoveId(ps, id) == [ps[0]] + (u + v) by {
        assert ps[0].id != id;
        RemoveIdCons(ps, id);
      }
      assert ps[..k] == [ps[0]] + u && ps[k + 1..] == v;
      Seqs.Assoc([ps[0]], u, v);
    }
  }

  /** One step of the filter: the head is kept exactly when its id differs. */
  lemma RemoveIdCons(ps: seq<Player>, id: string)
    requires |ps| > 0
    ensures RemoveId(ps, id) == (if ps[0].id == id then [] else [ps[0]]) + RemoveId(ps[1..], id)
  {
    if ps[0].id == id {
      assert [] + RemoveId(ps[1..], id) == RemoveId(ps[1..], id);
    }
  }

  /** A single entry is kept exactly when its id differs. */
  lemma RemoveIdSingle(q: Player, id: string)
    ensures RemoveId([q], id) == if q.id == id then [] else [q]
  {
    assert [q][1..] == [];
  }

  /** Filtering distributes over concatenation. With `RemoveIdSingle` this
      fixes the result as the entries with another id, in their original order
      and multiplicity, with or without duplicate ids. */
  lemma {:induction false} RemoveIdAppend(a: seq<Player>, b: seq<Player>, id: string)
    ensures RemoveId(a + b, id) == RemoveId(a, id) + RemoveId(b, id)
    decreases |a|
  {
    if |a| == 0 {
      assert a + b == b;
    } else {
      var h := if a[0].id == id then [] else [a[0]];
      var x, y := RemoveId(a[1..], id), RemoveId(b, id);
      assert RemoveId(a + b, id) == h + RemoveId(a[1..] + b, id) by {
        Seqs.ConsAppend(a, b);
        RemoveIdCons(a + b, id);
      }
      assert RemoveId(a, id) == h + x by {
        RemoveIdCons(a, id);
      }
      RemoveIdAppend(a[1..], b, id);
      Seqs.Assoc(h, x, y);
    }
  }

  /** Filtering keeps every entry with another id as often as it occurs, and
      none with `id`. */
  lemma {:induction false} RemoveIdCounts(ps: seq<Player>, id: string, q: Player)
    ensures multiset(RemoveId(ps, id))[q] == if q.id == id then 0 else multiset(ps)[q]
    decreases |ps|
  {
    if |ps| > 0 {
      RemoveIdCounts(ps[1..], id, q);
      var rest := RemoveId(ps[1..], id);
      assert ps == [ps[0]] + ps[1..];
      assert multiset(ps) == multiset{ps[0]} + multiset(ps[1..]);
      if ps[0].id != id {
        assert RemoveId(ps, id) == [ps[0]] + rest;
        assert multiset([ps[0]] + rest) == multiset{ps[0]} + multiset(rest);
      }
    }
  }

  /** Even in a list that repeats a player, deselecting removes every entry
      with that id and keeps the others, duplicates included, in order: the
      entries before position `k` and after it are filtered on their own. */
  lemma SelectPlayerRemovesAround(st: State, k: nat)
    requires k < |st.selected|
    ensures SelectPlayer(st, st.selected[k]).selected ==
      RemoveId(st.selected[..k], st.selected[k].id) + RemoveId(st.selected[k + 1..], st.selected[k].id)
  {
    var ps, id := st.selected, st.selected[k].id;
    assert ps[k].id == id;
    assert ps == ps[..k] + [ps[k]] + ps[k + 1..];
    RemoveIdAppend(ps[..k] + [ps[k]], ps[k + 1..], id);
    RemoveIdAppend(ps[..k], [ps[k]], id);
    RemoveIdSingle(ps[k], id);
    assert RemoveId(ps[..k], id) + [] == RemoveId(ps[..k], id);
  }

  // ---------------------------------------------------------------------
  // Properties of the transitions
  // ---------------------------------------------------------------------

  /** Toggling a player keeps the invariant, whatever the player. */
  lemma SelectPlayerValid(st: State, p: Player)
    requires Valid(st)
    ensures Valid(SelectPlayer(st, p))
  {
    var r := SelectPlayer(st, p);
    if !HasId(st.selected, p.id) && |st.selected| < TOTAL_PLAYERS {
      assert UniqueIds(r.selected) by {
        forall i, j | 0 <= i < j < |r.selected| ensures r.selected[i].id != r.selected[j].id {
          if j == |st.selected| {
            assert r.selected[i] == st.selected[i];
          } else {
            assert r.selected[i] == st.selected[i] && r.selected[j] == st.selected[j];
          }
        }
      }
    }
  }

  /** Toggling a selected player removes exactly that entry and keeps every
      other player in the same relative order. */
  lemma SelectPlayerRemoves(st: State, k: nat)
    requires Valid(st)
    requires k < |st.selected|
    ensures SelectPlayer(st, st.selected[k]).selected == st.selected[..k] + st.selected[k + 1..]
  {
    RemoveAt(st.selected, k);
  }

  /** Adding a player and toggling it again returns to the original state. */
  lemma SelectThenDeselect(st: State, p: Player)
    requires Valid(st)
    requires CanSelect(st, p)
    ensures SelectPlayer(SelectPlayer(st, p), p) == st
  {
    var s1 := SelectPlayer(st, p);
    assert s1.selected[|st.selected|] == p;
    assert HasId(s1.selected, p.id);
    assert forall i | 0 <= i < |st.selected| :: Ids(st.selected)[i] == st.selected[i].id;
    assert UniqueIds(s1.selected) by { SelectPlayerValid(st, p); }
    RemoveAt(s1.selected, |st.selected|);
    assert s1.selected[..|st.selected|] == st.selected;
    assert st.captain.Some? ==> st.captain.value.id != p.id by {
      if st.captain.Some? {
        var i :| 0 <= i < |st.selected| && st.selected[i] == st.captain.value;
      }
    }
    assert st.wicketKeeper.Some? ==> st.wicketKeeper.value.id != p.id by {
      if st.wicketKeeper.Some? {
        var i :| 0 <= i < |st.selected| && st.selected[i] == st.wicketKeeper.value;
      }
    }
  }

  /** Toggling the same player twice: from a role holder with another id the
      role ends up empty; from a holder with the same id it ends up with `p`. */
  lemma ToggleRoleTwice(prev: Option<Player>, p: Player)
    ensures ToggleRole(ToggleRole(prev, Some(p)), Some(p)) ==
      (if prev.Some? && prev.value.id == p.id then Some(p) else None)
  {
  }

  /** Setting the captain twice with the same player, starting from a captain
      with another id (or none), leaves no captain. */
  lemma SetCaptainTwice(st: State, p: Player)
    requires st.captain.None? || st.captain.value.id != p.id
    ensures SetCaptain(SetCaptain(st, Some(p)), Some(p)).captain.None?
  {
    ToggleRoleTwice(st.captain, p);
  }

  /** Setting the keeper twice with the same player, starting from a keeper
      with another id (or none), leaves no keeper. */
  lemma SetWicketKeeperTwice(st: State, p: Player)
    requires st.wicketKeeper.None? || st.wicketKeeper.value.id != p.id
    ensures SetWicketKeeper(SetWicketKeeper(st, Some(p)), Some(p)).wicketKeeper.None?
  {
    ToggleRoleTwice(st.wicketKeeper, p);
  }

  /** With the argument the panel supplies (a selected player, or none) the
      captain toggle keeps the invariant. */
  lemma SetCaptainValid(st: State, p: Option<Player>)
    requires Valid(st)
    requires p.Some? ==> p.value in st.selected
    ensures Valid(SetCaptain(st, p))
  {
  }

  /** With a selected argument (or none) the keeper toggle keeps the invariant. */
  lemma SetWicketKeeperValid(st: State, p: Option<Player>)
    requires Valid(st)
    requires p.Some? ==> p.value in st.selected
    ensures Valid(SetWicketKeeper(st, p))
  {
  }

  /** The captain toggle does not check membership: from the initial state it
      makes any player captain, which breaks the role-in-team invariant. */
  lemma CaptainNeedNotBeSelected(p: Player)
    ensures SetCaptain(Initial(), Some(p)).captain == Some(p)
    ensures !Valid(SetCaptain(Initial(), Some(p)))
  {
  }

  /** The reorder handler takes any list: one that repeats a player replaces
      the team as given, which breaks the unique-id invariant. */
  lemma ReorderNeedNotPermute(p: Player)
    ensures Reorder(Initial(), [p, p]).selected == [p, p]
    ensures !Valid(Reorder(Initial(), [p, p]))
  {
    assert [p, p][0].id == [p, p][1].id;
  }

  /** A list with two equal entries has that entry at least twice in its
      multiset. */
  lemma {:induction false} TwiceInMultiset(s: seq<Player>, i: nat, j: nat)
    requires i < j < |s|
    requires s[i] == s[j]
    ensures multiset(s)[s[i]] >= 2
  {
    assert s == s[..j] + [s[j]] + s[j + 1..];
    assert s[..j] == s[..i] + [s[i]] + s[i + 1..j];
    assert multiset(s) == multiset(s[..i]) + multiset{s[i]} + multiset(s[i + 1..j]) + multiset{s[j]} + multiset(s[j + 1..]);
  }

  /** In a list with unique ids every player occurs at most once. */
  lemma {:induction false} UniqueAtMostOnce(a: seq<Player>, v: Player)
    requires UniqueIds(a)
    ensures multiset(a)[v] <= 1
  {
    if |a| > 0 {
      assert a == [a[0]] + a[1..];
      UniqueTail(a);
      UniqueAtMostOnce(a[1..], v);
      if a[0] == v {
        forall k | 0 <= k < |a[1..]| ensures a[1..][k] != v {
          assert a[1..][k] == a[k + 1];
        }
        assert v !in multiset(a[1..]);
      }
    }
  }

  /** In a list with unique ids every member occurs exactly once. */
  lemma UniqueOnce(a: seq<Player>)
    ensures UniqueIds(a) ==> forall p | p in a :: multiset(a)[p] == 1
  {
    if UniqueIds(a) {
      forall p | p in a ensures multiset(a)[p] == 1 {
        UniqueAtMostOnce(a, p);
      }
    }
  }

  /** Permuting a list keeps its ids unique. */
  lemma PermutationUnique(a: seq<Player>, b: seq<Player>)
    requires UniqueIds(a)
    requires multiset(a) == multiset(b)
    ensures UniqueIds(b)
  {
    forall i, j | 0 <= i < j < |b| ensures b[i].id != b[j].id {
      if b[i] == b[j] {
        TwiceInMultiset(b, i, j);
        UniqueAtMostOnce(a, b[i]);
      } else {
        assert b[i] in multiset(a) && b[j] in multiset(a);
        var x :| 0 <= x < |a| && a[x] == b[i];
        var y :| 0 <= y < |a| && a[y] == b[j];
      }
    }
  }

  /** Reordering by a permutation of the current selection (what the
      drag-and-drop list hands back) keeps the invariant and the roles. */
  lemma ReorderValid(st: State, order: seq<Player>)
    requires Valid(st)
    requires multiset(order) == multiset(st.selected)
    ensures Valid(Reorder(st, order))
  {
    assert |order| == |multiset(order)| == |multiset(st.selected)| == |st.selected|;
    PermutationUnique(st.selected, order);
    if st.captain.Some? {
      assert st.captain.value in multiset(st.selected);
    }
    if st.wicketKeeper.Some? {
      assert st.wicketKeeper.value in multiset(st.selected);
    }
  }

  /** Reset yields a valid empty team from any state, and the same one each
      time. */
  lemma ResetValid(st: State, other: State)
    ensures Valid(Reset(st))
    ensures Reset(st) == Reset(other)
  {
  }
  /** Confirming and then closing the modal leaves the state as closing alone
      does, and a ready team can be confirmed again after closing. */
  lemma ConfirmThenClose(st: State)
    ensures CloseModal(Submit(st)) == CloseModal(st)
    ensures ReadyToSubmit(st) ==> Submit(CloseModal(Submit(st))).showSuccess
  {
  }


  // ---------------------------------------------------------------------
  // Runs of user intents
  // ---------------------------------------------------------------------

  /** What the user can ask for. */
  datatype Intent =
    | Toggle(player: Player)
    | ToggleCaptain(candidate: Option<Player>)
    | ToggleWicketKeeper(candidate: Option<Player>)
    | Drag(order: seq<Player>)
    | Confirm
    | ResetTeam
    | Dismiss

  /** The transition an intent triggers. */
  function Step(st: State, i: Intent): State {
    match i
    case Toggle(p) => SelectPlayer(st, p)
    case ToggleCaptain(p) => SetCaptain(st, p)
    case ToggleWicketKeeper(p) => SetWicketKeeper(st, p)
    case Drag(order) => Reorder(st, order)
    case Confirm => Submit(st)
    case ResetTeam => Reset(st)
    case Dismiss => CloseModal(st)
  }

  /** What the panel can produce in state `st`: role buttons exist only on
      selected players, and the drag-and-drop list only permutes them. */
  predicate Offered(st: State, i: Intent) {
    match i
    case ToggleCaptain(p) => p.Some? ==> p.value in st.selected
    case ToggleWicketKeeper(p) => p.Some? ==> p.value in st.selected
    case Drag(order) => multiset(order) == multiset(st.selected)
    case _ => true
  }

  /** Applies a sequence of intents in order. */
  function Run(st: State, intents: seq<Intent>): State
    decreases |intents|
  {
    if |intents| == 0 then st else Run(Step(st, intents[0]), intents[1..])
  }

  /** Every intent of the sequence is one the panel offers when it happens. */
  predicate OfferedRun(st: State, intents: seq<Intent>)
    decreases |intents|
  {
    |intents| == 0 || (Offered(st, intents[0]) && OfferedRun(Step(st, intents[0]), intents[1..]))
  }

  /** One step offered by the panel keeps the invariant. */
  lemma StepValid(st: State, i: Intent)
    requires Valid(st)
    requires Offered(st, i)
    ensures Valid(Step(st, i))
  {
    match i
    case Toggle(p) => SelectPlayerValid(st, p);
    case ToggleCaptain(p) => SetCaptainValid(st, p);
    case ToggleWicketKeeper(p) => SetWicketKeeperValid(st, p);
    case Drag(order) => ReorderValid(st, order);
    case Confirm =>
    case ResetTeam =>
    case Dismiss =>
  }

  /** From any valid state (the initial one among them), any run of offered
      intents keeps at most eleven players, unique ids, and both roles among
      the selected players. */
  lemma {:induction false} RunValid(st: State, intents: seq<Intent>)
    requires Valid(st)
    requires OfferedRun(st, intents)
    ensures Valid(Run(st, intents))
    decreases |intents|
  {
    if |intents| > 0 {
      StepValid(st, intents[0]);
      RunValid(Step(st, intents[0]), intents[1..]);
    }
  }
}
