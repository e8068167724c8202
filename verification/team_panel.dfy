/** The completion and hint rules of the selected-team panel
    (src/components/SelectedTeamPanel.tsx): pure functions of the props
    `players`, `captain` and `wicketKeeper`. */
module TeamPanel {
  import opened Wrappers
  import opened Players
  import Selection
  import Json

  /** The props the page passes to the panel. */
  datatype Props = Props(players: seq<Player>, captain: Option<Player>, wicketKeeper: Option<Player>)

  /** The panel as the page renders it for state `st`. */
  function PropsOf(st: Selection.State): Props {
    Props(st.selected, st.captain, st.wicketKeeper)
  }

  /** `isComplete`: eleven players, a captain and a wicket-keeper. The panel
      and the page's submit guard agree on it, and a complete panel has no
      empty slot. */
  predicate IsComplete(pr: Props)
    ensures IsComplete(pr) <==> Selection.ReadyToSubmit(Selection.State(pr.players, pr.captain, pr.wicketKeeper, false))
    ensures IsComplete(pr) ==> EmptySlotCount(pr) == 0
  {
    |pr.players| == 11 && pr.captain.Some? && pr.wicketKeeper.Some?
  }

  /** `disabled={!isComplete}` on the confirm button. */
  predicate SubmitDisabled(pr: Props)
    ensures SubmitDisabled(pr) <==> |pr.players| != TOTAL_PLAYERS || pr.captain.None? || pr.wicketKeeper.None?
  {
    !IsComplete(pr)
  }

  /** `Math.max(0, 11 - players.length)` */
  function EmptySlotCount(pr: Props): (r: nat)
    ensures |pr.players| + r >= 11
    ensures r > 0 ==> |pr.players| + r == 11
  {
    if 11 - |pr.players| > 0 then 11 - |pr.players| else 0
  }

  /** The numbers shown in the empty slots: `players.length + i + 1` for the
      `i`-th slot. */
  function SlotNumbers(pr: Props): (r: seq<int>)
    ensures |r| == EmptySlotCount(pr)
  {
    seq(EmptySlotCount(pr), i requires 0 <= i < EmptySlotCount(pr) => |pr.players| + i + 1)
  }

  /** The one-based batting positions `1 .. n`. */
  function Positions(n: nat): (r: seq<int>)
    ensures |r| == n
  {
    seq(n, i requires 0 <= i < n => i + 1)
  }

  /** A validation hint under the confirm button. */
  datatype Hint = SelectMore(count: int) | SelectCaptain | SelectWicketKeeper

  /** The hints rendered: none when the team is complete; otherwise each of
      the three guarded paragraphs whose guard holds. */
  function Hints(pr: Props): (r: seq<Hint>)
    ensures |r| <= 1
    ensures r == [] <==> IsComplete(pr) || |pr.players| > TOTAL_PLAYERS
    ensures IsComplete(pr) ==> r == []
  {
    if IsComplete(pr) then []
    else
      var n := |pr.players|;
      (if n < 11 then [SelectMore(11 - n)] else [])
      + (if n == 11 && pr.captain.None? then [SelectCaptain] else [])
      + (if n == 11 && pr.captain.Some? && pr.wicketKeeper.None? then [SelectWicketKeeper] else [])
  }

  /** The text of a hint. The count in `Select … more` is written in decimal
      and reads back as the count. */
  function HintText(h: Hint): (r: string)
    ensures h.SelectMore? && h.count >= 0 ==>
      && |r| > 12 && r[..7] == "Select " && r[|r| - 5..] == " more"
      && IsDigits(r[7..|r| - 5]) && DigitsValue(r[7..|r| - 5]) == h.count
    ensures !h.SelectMore? ==> |r| > 7 && r[..7] == "Select "
  {
    match h
    case SelectMore(k) =>
      var d := if k < 0 then "-" + Decimal(-k) else Decimal(k);
      var r := "Select " + d + " more";
      if k >= 0 then
        DecimalValue(k);
        assert r[7..|r| - 5] == d;
        r
      else r
    case SelectCaptain => "Select Captain"
    case SelectWicketKeeper => "Select Wicket-Keeper"
  }

  /** Decimal digits of a natural number, as template interpolation writes
      it: no leading zero. */
  function Decimal(n: nat): (r: string)
    ensures |r| > 0 && IsDigits(r)
    ensures |r| > 1 ==> r[0] != '0'
    decreases n
  {
    if n < 10 then ["0123456789"[n]] else Decimal(n / 10) + ["0123456789"[n % 10]]
  }

  predicate IsDigits(s: string) {
    forall i | 0 <= i < |s| :: Json.IsDigit(s[i])
  }

  /** The number a string of decimal digits denotes. */
  function DigitsValue(s: string): nat
    requires IsDigits(s)
    decreases |s|
  {
    if |s| == 0 then 0 else DigitsValue(s[..|s| - 1]) * 10 + (s[|s| - 1] as int - '0' as int)
  }

  /** `captain?.id === player.id` (likewise for the keeper): whether an item
      holds a role. */
  predicate Holds(role: Option<Player>, p: Player) {
    role.Some? && role.value.id == p.id
  }

  /** The badge on a player item: none unless captain or keeper; `C/WK` for
      both, `WK` for keeper only, `C` for captain only. The badge appears
      exactly on role holders, and its label names each role the player
      holds: `C` iff captain, `W` iff keeper. */
  function Badge(isCaptain: bool, isWK: bool): (r: Option<string>)
    ensures r.Some? <==> isCaptain || isWK
    ensures r.Some? ==> ('C' in r.value <==> isCaptain) && ('W' in r.value <==> isWK)
  {
    if isCaptain || isWK then
      assert "C/WK"[0] == 'C' && "C/WK"[2] == 'W';
      assert "WK"[0] == 'W';
      Some(if isCaptain && isWK then "C/WK" else if isWK then "WK" else "C")
    else None
  }

  /** Number of items of `ps` marked as holding `role`. */
  function CountHolding(ps: seq<Player>, role: Option<Player>): nat {
    if |ps| == 0 then 0 else (if Holds(role, ps[0]) then 1 else 0) + CountHolding(ps[1..], role)
  }

  // ---------------------------------------------------------------------
  // Properties
  // ---------------------------------------------------------------------

  /** The confirm button is enabled exactly when clicking it opens the success
      modal: the panel's `isComplete` and the page's submit guard agree. */
  lemma SubmitMatchesHandler(st: Selection.State)
    ensures Selection.Submit(st).showSuccess <==> st.showSuccess || !SubmitDisabled(PropsOf(st))
    ensures !st.showSuccess ==> (Selection.Submit(st).showSuccess <==> !SubmitDisabled(PropsOf(st)))
  {
  }

  /** The filled positions followed by the empty-slot numbers list the
      positions `1 .. 11` in order, for a team of at most eleven. */
  lemma SlotsCompleteLineup(pr: Props)
    requires |pr.players| <= 11
    ensures Positions(|pr.players|) + SlotNumbers(pr) == Positions(11)
  {
    var n := |pr.players|;
    var s := Positions(n) + SlotNumbers(pr);
    assert |s| == 11;
    forall i | 0 <= i < 11 ensures s[i] == Positions(11)[i] {
      if i < n {
        assert s[i] == Positions(n)[i];
      } else {
        assert s[i] == SlotNumbers(pr)[i - n];
      }
    }
  }

  /** The count in a hint reads back as the number of players missing. */
  lemma {:induction false} DecimalValue(n: nat)
    ensures DigitsValue(Decimal(n)) == n
    decreases n
  {
    var d := ["0123456789"[n % 10]];
    if n < 10 {
      assert Decimal(n)[..0] == [];
    } else {
      var r := Decimal(n / 10) + d;
      assert r[..|r| - 1] == Decimal(n / 10);
      DecimalValue(n / 10);
    }
  }

  /** An over-full panel shows no empty slot. */
  lemma NoSlotsWhenFull(pr: Props)
    requires |pr.players| >= 11
    ensures SlotNumbers(pr) == []
  {
  }

  /** No hint is shown for a complete team; for an incomplete team of at most
      eleven exactly one is shown, and which one depends on the first thing
      still missing: players, then captain, then keeper. */
  lemma OneHintAtATime(pr: Props)
    requires |pr.players| <= 11
    ensures IsComplete(pr) <==> Hints(pr) == []
    ensures !IsComplete(pr) ==> |Hints(pr)| == 1
    ensures |pr.players| < 11 ==> Hints(pr) == [SelectMore(11 - |pr.players|)]
    ensures |pr.players| == 11 && pr.captain.None? ==> Hints(pr) == [SelectCaptain]
    ensures |pr.players| == 11 && pr.captain.Some? && pr.wicketKeeper.None? ==> Hints(pr) == [SelectWicketKeeper]
  {
  }

  /** A panel short of players shows one hint, whose text gives the number
      of players still missing. */
  lemma MissingCountShown(pr: Props)
    requires |pr.players| < TOTAL_PLAYERS
    ensures |Hints(pr)| == 1
    ensures var t := HintText(Hints(pr)[0]);
      |t| > 12 && IsDigits(t[7..|t| - 5]) && DigitsValue(t[7..|t| - 5]) == TOTAL_PLAYERS - |pr.players|
  {
    OneHintAtATime(pr);
  }

  /** An over-full panel is incomplete yet shows no hint (a state the page's
      transitions never reach). */
  lemma OverfullShowsNoHint(pr: Props)
    requires |pr.players| > 11
    ensures !IsComplete(pr) && Hints(pr) == []
  {
  }

  /** In a team with unique ids whose role holder is selected, exactly one
      item carries that role's mark (hence the `C` or `WK` part of a badge)
      when the role is held, and none otherwise. */
  lemma {:induction false} RoleMarkedOnce(ps: seq<Player>, role: Option<Player>)
    requires UniqueIds(ps)
    requires role.Some? ==> role.value in ps
    ensures CountHolding(ps, role) == (if role.Some? then 1 else 0)
  {
    if |ps| > 0 {
      UniqueTail(ps);
      if Holds(role, ps[0]) {
        NoneHolding(ps[1..], role.value.id);
      } else {
        if role.Some? {
          assert role.value != ps[0];
          var k :| 0 <= k < |ps| && ps[k] == role.value;
          assert ps[1..][k - 1] == role.value;
        }
        RoleMarkedOnce(ps[1..], role);
      }
    } else {
      assert role.None?;
    }
  }

  /** When no entry has `id`, no item is marked for a role with that id. */
  lemma {:induction false} NoneHolding(ps: seq<Player>, id: string)
    requires forall i | 0 <= i < |ps| :: ps[i].id != id
    ensures forall role: Option<Player> | role.Some? && role.value.id == id :: CountHolding(ps, role) == 0
  {
    if |ps| > 0 {
      assert forall i | 0 <= i < |ps[1..]| :: ps[1..][i].id != id by {
        forall i | 0 <= i < |ps[1..]| ensures ps[1..][i].id != id {
          assert ps[1..][i] == ps[i + 1];
        }
      }
      NoneHolding(ps[1..], id);
    }
  }
}
