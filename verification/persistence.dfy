/** The id-only projection of the page state that is saved and shared
    (`StoredState`, src/app/page.tsx), and its resolution back against the
    roster when the page loads. */
module Persistence {
  import opened Wrappers
  import opened Players
  import opened Selection
  import opened Json
  import Seqs

  datatype StoredState = StoredState(
    selectedPlayerIds: seq<string>,
    captainId: Option<string>,
    wicketKeeperId: Option<string>)

  /** `role?.id || null`: an absent role and a role whose id is the empty
      string are both stored as `null`. */
  function RoleId(role: Option<Player>): (r: Option<string>)
    ensures r.Some? <==> role.Some? && role.value.id != ""
    ensures r.Some? ==> r.value == role.value.id
  {
    if role.Some? && role.value.id != "" then Some(role.value.id) else None
  }

  /** The object built before saving and before sharing. */
  function ToStored(st: State): (r: StoredState)
    ensures |r.selectedPlayerIds| == |st.selected|
    ensures forall i | 0 <= i < |st.selected| :: r.selectedPlayerIds[i] == st.selected[i].id
    ensures r.captainId == RoleId(st.captain) && r.wicketKeeperId == RoleId(st.wicketKeeper)
  {
    StoredState(Ids(st.selected), RoleId(st.captain), RoleId(st.wicketKeeper))
  }

  /** `ids.map(id => roster.find(p => p.id === id)).filter(p => p !== undefined)` */
  function ResolveIds(ids: seq<string>, roster: seq<Player>): (r: seq<Player>)
    ensures |r| <= |ids|
    ensures forall p | p in r :: p in roster
  {
    if |ids| == 0 then []
    else
      var found := FindById(roster, ids[0]);
      (if found.Some? then [found.value] else []) + ResolveIds(ids[1..], roster)
  }

  /** The ids the roster knows, in their original order. */
  function KnownIds(ids: seq<string>, roster: seq<Player>): seq<string> {
    if |ids| == 0 then []
    else if HasId(roster, ids[0]) then [ids[0]] + KnownIds(ids[1..], roster)
    else KnownIds(ids[1..], roster)
  }

  /** `if (id) { const p = roster.find(...); if (p) set(p) }` applied to a
      role that starts out empty: a missing or empty id, or an id the roster
      does not know, leaves the role empty. */
  function RestoreRole(id: Option<string>, roster: seq<Player>): (r: Option<Player>)
    ensures r.Some? ==> id.Some? && r.value.id == id.value && r.value in roster
    ensures r.None? <==> id.None? || id.value == "" || !HasId(roster, id.value)
  {
    if id.Some? && id.value != "" then FindById(roster, id.value) else None
  }

  /** The load effect applied to the initial state: players, captain and
      keeper are each resolved on their own against the roster. Neither the
      role's membership in the team, nor the team size, nor duplicate ids are
      checked. */
  function LoadStored(stored: StoredState, roster: seq<Player>): (r: State)
    ensures |r.selected| <= |stored.selectedPlayerIds|
    ensures !r.showSuccess
  {
    State(
      ResolveIds(stored.selectedPlayerIds, roster),
      RestoreRole(stored.captainId, roster),
      RestoreRole(stored.wicketKeeperId, roster),
      false)
  }

  // ---------------------------------------------------------------------
  // Parsed values of any shape
  // ---------------------------------------------------------------------

  /** The string elements of an array, in order. Only a string can equal a
      roster id, so the other elements resolve to nothing. */
  function StringIds(items: seq<Value>): (r: seq<string>)
    ensures |r| <= |items|
    ensures forall x :: x in r <==> JString(x) in items
  {
    if |items| == 0 then []
    else
      assert items == [items[0]] + items[1..];
      (if items[0].JString? then [items[0].s] else []) + StringIds(items[1..])
  }

  /** `value ? roster.find(p => p.id === value) || null : null` for a parsed
      value of any type: falsy values give no player, and `===` only matches a
      string. */
  function RoleOfValue(v: Value, roster: seq<Player>): (r: Option<Player>)
    ensures r.Some? <==> v.JString? && v.s != "" && HasId(roster, v.s)
    ensures r.Some? ==> r == FindById(roster, v.s)
  {
    if Truthy(v) then
      if v.JString? then FindById(roster, v.s) else None
    else None
  }

  /** The role restored from member `key` of the parsed entry; a missing
      member is `undefined`, which is falsy. */
  function RoleOfMember(data: Value, key: string, roster: seq<Player>): (r: Option<Player>)
    ensures r.Some? ==> Property(data, key).Some? && r == RoleOfValue(Property(data, key).value, roster)
    ensures Property(data, key).Some? ==> r == RoleOfValue(Property(data, key).value, roster)
    ensures Property(data, key).None? ==> r.None?
  {
    match Property(data, key)
    case None => None
    case Some(v) => RoleOfValue(v, roster)
  }

  /** The load effect on the parsed storage entry, whatever its shape, applied
      to the initial state. `data.selectedPlayerIds.map` throws (`None`: the
      error is logged and nothing is restored) unless `data` is an object
      whose `selectedPlayerIds` is an array. Otherwise nothing throws:
      non-string elements and role values that are not known non-empty string
      ids are dropped silently. */
  function LoadParsed(data: Value, roster: seq<Player>): (r: Option<State>)
    ensures r.Some? <==>
      Property(data, "selectedPlayerIds").Some? && Property(data, "selectedPlayerIds").value.JArray?
    ensures r.Some? ==>
      && r.value.selected == ResolveIds(StringIds(Property(data, "selectedPlayerIds").value.items), roster)
      && r.value.captain == RoleOfMember(data, "captainId", roster)
      && r.value.wicketKeeper == RoleOfMember(data, "wicketKeeperId", roster)
      && !r.value.showSuccess
  {
    match Property(data, "selectedPlayerIds")
    case Some(JArray(items)) =>
      Some(State(
        ResolveIds(StringIds(items), roster),
        RoleOfMember(data, "captainId", roster),
        RoleOfMember(data, "wicketKeeperId", roster),
        false))
    case _ => None
  }

  /** The value `JSON.parse` gives for a saved `StoredState`. */
  function StoredValue(s: StoredState): Value {
    JObject([
      ("selectedPlayerIds", JArray(Strings(s.selectedPlayerIds))),
      ("captainId", Nullable(s.captainId)),
      ("wicketKeeperId", Nullable(s.wicketKeeperId))])
  }

  lemma {:induction false} StringIdsOfStrings(xs: seq<string>)
    ensures StringIds(Strings(xs)) == xs
    ensures forall i | 0 <= i < |Strings(xs)| :: Strings(xs)[i].JString?
    decreases |xs|
  {
    if |xs| > 0 {
      assert Strings(xs)[1..] == Strings(xs[1..]);
      StringIdsOfStrings(xs[1..]);
      assert xs == [xs[0]] + xs[1..];
    }
  }

  /** A single element contributes its string, or nothing. */
  lemma StringIdsSingle(v: Value)
    ensures StringIds([v]) == if v.JString? then [v.s] else []
  {
    assert [v][1..] == [];
  }

  /** Taking the string elements distributes over concatenation. With
      `StringIdsSingle` this fixes the result as the strings of the array in
      their original order, duplicates included, whatever else it holds. */
  lemma {:induction false} StringIdsAppend(a: seq<Value>, b: seq<Value>)
    ensures StringIds(a + b) == StringIds(a) + StringIds(b)
    decreases |a|
  {
    if |a| == 0 {
      assert a + b == b;
    } else {
      var h := if a[0].JString? then [a[0].s] else [];
      var x, y := StringIds(a[1..]), StringIds(b);
      assert StringIds(a + b) == h + StringIds(a[1..] + b) by {
        Seqs.ConsAppend(a, b);
      }
      StringIdsAppend(a[1..], b);
      Seqs.Assoc(h, x, y);
    }
  }

  /** Each string occurs among the ids as often as it occurs in the array. */
  lemma {:induction false} StringIdsCounts(items: seq<Value>, x: string)
    ensures multiset(StringIds(items))[x] == multiset(items)[JString(x)]
    decreases |items|
  {
    if |items| > 0 {
      StringIdsCounts(items[1..], x);
      var h := if items[0].JString? then [items[0].s] else [];
      assert items == [items[0]] + items[1..];
      assert multiset(items) == multiset{items[0]} + multiset(items[1..]);
      assert multiset(StringIds(items)) == multiset(h) + multiset(StringIds(items[1..]));
    }
  }

  /** A role value written as a string or `null` restores like the typed id. */
  lemma RoleOfNullable(id: Option<string>, roster: seq<Player>)
    ensures RoleOfValue(Nullable(id), roster) == RestoreRole(id, roster)
  {
  }

  /** On an entry of the declared shape the load effect is `LoadStored`. */
  lemma LoadParsedStored(s: StoredState, roster: seq<Player>)
    ensures LoadParsed(StoredValue(s), roster) == Some(LoadStored(s, roster))
  {
    var v := StoredValue(s);
    var ms := v.members;
    assert ms[..2] == [ms[0], ms[1]] && ms[..2][..1] == [ms[0]];
    assert "wicketKeeperId" != "selectedPlayerIds" && "wicketKeeperId" != "captainId" && "captainId" != "selectedPlayerIds";
    assert Property(v, "selectedPlayerIds") == Some(JArray(Strings(s.selectedPlayerIds)));
    assert Property(v, "captainId") == Some(Nullable(s.captainId));
    assert Property(v, "wicketKeeperId") == Some(Nullable(s.wicketKeeperId));
    StringIdsOfStrings(s.selectedPlayerIds);
    RoleOfNullable(s.captainId, roster);
    RoleOfNullable(s.wicketKeeperId, roster);
  }

  /** `{"selectedPlayerIds":[5,"1"],"captainId":true}` loads without throwing:
      the number and the `true` captain are dropped silently. */
  lemma LoadParsedDropsSilently(roster: seq<Player>)
    ensures LoadParsed(JObject([("selectedPlayerIds", JArray([JNumber("5"), JString("1")])), ("captainId", JBool(true))]), roster)
      == Some(State(ResolveIds(["1"], roster), None, None, false))
  {
    var items := [JNumber("5"), JString("1")];
    assert items[1..] == [JString("1")];
    assert StringIds(items) == ["1"];
  }

  // ---------------------------------------------------------------------
  // Resolution
  // ---------------------------------------------------------------------

  /** Resolution distributes over concatenation of id lists. */
  lemma {:induction false} ResolveAppend(a: seq<string>, b: seq<string>, roster: seq<Player>)
    ensures ResolveIds(a + b, roster) == ResolveIds(a, roster) + ResolveIds(b, roster)
  {
    if |a| == 0 {
      assert a + b == b;
    } else {
      var head := FindById(roster, a[0]);
      var h := if head.Some? then [head.value] else [];
      assert (a + b)[0] == a[0];
      assert (a + b)[1..] == a[1..] + b;
      assert ResolveIds(a + b, roster) == h + ResolveIds(a[1..] + b, roster);
      assert ResolveIds(a, roster) == h + ResolveIds(a[1..], roster);
      ResolveAppend(a[1..], b, roster);
      Seqs.Assoc(h, ResolveIds(a[1..], roster), ResolveIds(b, roster));
    }
  }

  /** Resolution keeps exactly the ids the roster knows, in their order. */
  lemma {:induction false} ResolveKnownIds(ids: seq<string>, roster: seq<Player>)
    ensures Ids(ResolveIds(ids, roster)) == KnownIds(ids, roster)
  {
    if |ids| > 0 {
      ResolveKnownIds(ids[1..], roster);
      var found := FindById(roster, ids[0]);
      var tail := ResolveIds(ids[1..], roster);
      if found.Some? {
        assert Ids([found.value] + tail) == [ids[0]] + Ids(tail);
      } else {
        assert [] + tail == tail;
      }
    }
  }

  /** An id the roster does not know is dropped and nothing else changes. */
  lemma DropUnknown(before: seq<string>, unknown: string, after: seq<string>, roster: seq<Player>)
    requires !HasId(roster, unknown)
    ensures ResolveIds(before + [unknown] + after, roster) == ResolveIds(before + after, roster)
  {
    ResolveAppend(before + [unknown], after, roster);
    ResolveAppend(before, [unknown], roster);
    ResolveAppend(before, after, roster);
    assert ResolveIds([unknown], roster) == [];
  }

  /** When every selected player is a roster entry and roster ids are unique,
      resolving the stored ids gives back the same players in the same order. */
  lemma {:induction false} ResolveIdsOfPlayers(ps: seq<Player>, roster: seq<Player>)
    requires UniqueIds(roster)
    requires forall p | p in ps :: p in roster
    ensures ResolveIds(Ids(ps), roster) == ps
  {
    if |ps| > 0 {
      FindMember(roster, ps[0]);
      assert Ids(ps)[1..] == Ids(ps[1..]);
      ResolveIdsOfPlayers(ps[1..], roster);
      assert ps == [ps[0]] + ps[1..];
    }
  }

  /** A role held by a roster entry with a non-empty id survives saving and
      loading. */
  lemma RoleRoundTrip(role: Option<Player>, roster: seq<Player>)
    requires UniqueIds(roster)
    requires role.Some? ==> role.value in roster && role.value.id != ""
    ensures RestoreRole(RoleId(role), roster) == role
  {
    if role.Some? {
      FindMember(roster, role.value);
    }
  }

  /** Saving then loading restores players, order, captain and keeper, when
      all of them are roster entries and the role holders' ids are non-empty. */
  lemma LoadToStored(st: State, roster: seq<Player>)
    requires UniqueIds(roster)
    requires forall p | p in st.selected :: p in roster
    requires st.captain.Some? ==> st.captain.value in roster && st.captain.value.id != ""
    requires st.wicketKeeper.Some? ==> st.wicketKeeper.value in roster && st.wicketKeeper.value.id != ""
    ensures LoadStored(ToStored(st), roster) == st.(showSuccess := false)
  {
    ResolveIdsOfPlayers(st.selected, roster);
    RoleRoundTrip(st.captain, roster);
    RoleRoundTrip(st.wicketKeeper, roster);
  }

  /** A role held by a roster entry survives saving and loading unless its id
      is empty, in which case it is stored as `null` and lost. */
  lemma RoleRestored(role: Option<Player>, roster: seq<Player>)
    requires UniqueIds(roster)
    requires role.Some? ==> role.value in roster
    ensures RestoreRole(RoleId(role), roster) == if role.Some? && role.value.id != "" then role else None
  {
    if role.Some? && role.value.id != "" {
      FindMember(roster, role.value);
    }
  }

  /** A valid team built from the roster is valid again after saving and
      loading; a role holder with an empty id is dropped, which keeps the
      invariant. */
  lemma LoadToStoredValid(st: State, roster: seq<Player>)
    requires Valid(st)
    requires UniqueIds(roster)
    requires forall p | p in st.selected :: p in roster
    ensures Valid(LoadStored(ToStored(st), roster))
  {
    ResolveIdsOfPlayers(st.selected, roster);
    RoleRestored(st.captain, roster);
    RoleRestored(st.wicketKeeper, roster);
  }

  /** The load effect does not cap the team: a stored list of twelve or more
      known ids restores all of them, which breaks the invariant. */
  lemma RestoredTeamNotCapped(roster: seq<Player>)
    requires UniqueIds(roster)
    requires |roster| > TOTAL_PLAYERS
    ensures LoadStored(StoredState(Ids(roster), None, None), roster).selected == roster
    ensures !Valid(LoadStored(StoredState(Ids(roster), None, None), roster))
  {
    ResolveIdsOfPlayers(roster, roster);
  }

  /** The load effect does not re-check that a restored captain is in the
      team: a stored captain id alone restores that roster entry. */
  lemma RestoredCaptainNeedNotBeSelected(p: Player)
    requires p.id != ""
    ensures LoadStored(StoredState([], Some(p.id), None), [p]) == State([], Some(p), None, false)
  {
    assert [p][0].id == p.id;
  }

  /** The load effect does not remove duplicate ids: a stored list that repeats
      an id restores that player twice. */
  lemma RestoredDuplicatesKept(p: Player)
    ensures LoadStored(StoredState([p.id, p.id], None, None), [p]).selected == [p, p]
  {
    assert FindById([p], p.id) == Some(p);
    assert [p.id, p.id][1..] == [p.id];
    assert [p.id][1..] == [];
    assert ResolveIds([p.id], [p]) == [p];
  }
}
