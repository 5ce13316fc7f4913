/**
 * The turn state machine of the game screen: two banks, the torch, the
 * selection, the people on the bridge, the elapsed time and the move log,
 * changed by selecting players, confirming a crossing or a return, and the
 * step that completes each crossing or return once its animation is over.
 */
module GameScreen {
  import opened GameLogic

  /**
   * SelectPair: pick two on the torch side to cross; Crossing: the pair is on
   * the bridge; SelectReturn: pick one on the far side to bring the torch back;
   * Returning: that player is on the bridge; Done: everyone is across.
   */
  datatype Phase = SelectPair | Crossing | SelectReturn | Returning | Done
  datatype Side = Left | Right
  datatype Direction = Forward | Back
  datatype MoveKind = Cross | Return
  datatype Move = Move(kind: MoveKind, names: seq<string>, cost: int)

  predicate NoDuplicates(s: seq<nat>) {
    forall i, j :: 0 <= i < j < |s| ==> s[i] != s[j]
  }

  /** The total of the costs in a move log. */
  function SumCosts(log: seq<Move>): int {
    if log == [] then 0 else SumCosts(log[..|log| - 1]) + log[|log| - 1].cost
  }

  /** The ids of `s` that are not in `gone`, in their order. */
  function Without(s: seq<nat>, gone: seq<nat>): seq<nat> {
    if s == [] then [] else (if s[0] in gone then [] else [s[0]]) + Without(s[1..], gone)
  }

  /** `Without` drops every occurrence of the ids in `gone` and keeps every other one. */
  lemma {:induction false} WithoutCount(s: seq<nat>, gone: seq<nat>, x: nat)
    ensures multiset(Without(s, gone))[x] == if x in gone then 0 else multiset(s)[x]
  {
    if s != [] {
      assert s == [s[0]] + s[1..];
      WithoutCount(s[1..], gone, x);
    }
  }

  /** An id occurs at most once in a sequence without duplicates. */
  lemma {:induction false} DistinctCount(s: seq<nat>, x: nat)
    requires NoDuplicates(s)
    ensures multiset(s)[x] == if x in s then 1 else 0
  {
    if s != [] {
      assert s == [s[0]] + s[1..];
      DistinctCount(s[1..], x);
    }
  }

  /** Every player is in exactly one of the two banks and the bridge. */
  ghost predicate Conserved(left: seq<nat>, right: seq<nat>, crossing: seq<nat>, ids: seq<nat>) {
    multiset(left) + multiset(right) + multiset(crossing) == multiset(ids)
  }

  /**
   * Taking the selected pair off the left bank and onto the empty bridge
   * keeps every player counted exactly once.
   */
  lemma StepOntoBridge(left: seq<nat>, right: seq<nat>, moving: seq<nat>, ids: seq<nat>)
    requires NoDuplicates(ids) && NoDuplicates(moving)
    requires Conserved(left, right, [], ids)
    requires forall x :: x in moving ==> x in left
    ensures Conserved(Without(left, moving), right, moving, ids)
  {
    forall x ensures (multiset(Without(left, moving)) + multiset(right) + multiset(moving))[x] == multiset(ids)[x] {
      assert (multiset(left) + multiset(right) + multiset([]))[x] == multiset(ids)[x];
      DistinctCount(moving, x);
      DistinctCount(ids, x);
      WithoutCount(left, moving, x);
    }
  }

  /**
   * Taking the returning player off the right bank and onto the empty bridge
   * keeps every player counted exactly once.
   */
  lemma StepBackOntoBridge(left: seq<nat>, right: seq<nat>, ret: nat, ids: seq<nat>)
    requires NoDuplicates(ids)
    requires Conserved(left, right, [], ids)
    requires ret in right
    ensures Conserved(left, Without(right, [ret]), [ret], ids)
  {
    forall x ensures (multiset(left) + multiset(Without(right, [ret])) + multiset([ret]))[x] == multiset(ids)[x] {
      assert (multiset(left) + multiset(right) + multiset([]))[x] == multiset(ids)[x];
      DistinctCount(ids, x);
      WithoutCount(right, [ret], x);
    }
  }

  /** Those on the bridge stepping off onto the right bank are still counted once. */
  lemma StepOffRight(left: seq<nat>, right: seq<nat>, crossing: seq<nat>, ids: seq<nat>)
    requires Conserved(left, right, crossing, ids)
    ensures Conserved(left, right + crossing, [], ids)
  {
    assert multiset(right + crossing) == multiset(right) + multiset(crossing);
  }

  /** Those on the bridge stepping off onto the left bank are still counted once. */
  lemma StepOffLeft(left: seq<nat>, right: seq<nat>, crossing: seq<nat>, ids: seq<nat>)
    requires Conserved(left, right, crossing, ids)
    ensures Conserved(left + crossing, right, [], ids)
  {
    assert multiset(left + crossing) == multiset(left) + multiset(crossing);
  }

  /** `Without` keeps exactly the ids not in `gone`, never lengthens, and keeps ids distinct. */
  lemma {:induction false} WithoutKeeps(s: seq<nat>, gone: seq<nat>)
    ensures |Without(s, gone)| <= |s|
    ensures forall x :: x in Without(s, gone) <==> x in s && x !in gone
    ensures NoDuplicates(s) ==> NoDuplicates(Without(s, gone))
  {
    if s != [] {
      assert s == [s[0]] + s[1..];
      WithoutKeeps(s[1..], gone);
    }
  }

  /**
   * toggleSelect in the select-pair phase: a selected id is dropped, an
   * unselected one is added at the end while fewer than two are selected.
   */
  function TogglePair(selected: seq<nat>, id: nat): (r: seq<nat>)
    ensures id in selected ==> id !in r && forall x :: x != id ==> (x in r <==> x in selected)
    ensures id !in selected && |selected| < 2 ==> r == selected + [id]
    ensures id !in selected && |selected| >= 2 ==> r == selected
    ensures NoDuplicates(selected) && |selected| <= 2 ==> NoDuplicates(r) && |r| <= 2
  {
    if id in selected then
      WithoutKeeps(selected, [id]);
      Without(selected, [id])
    else if |selected| < 2 then selected + [id]
    else selected
  }

  datatype Rating = Perfect | VeryClose | Tip

  /**
   * resultRating: "Perfect" exactly when the elapsed time equals the optimum;
   * otherwise "very close" within 20% of it (written over integers), and a
   * tip beyond that.
   */
  function ResultRating(elapsed: int, optimal: int): (r: Rating)
    ensures r == Perfect <==> elapsed == optimal
    ensures optimal >= 0 && r == Tip ==> elapsed > optimal
    ensures optimal >= 0 && elapsed < optimal ==> r == VeryClose
    ensures r == VeryClose <==> elapsed != optimal && 5 * elapsed <= 6 * optimal
  {
    if elapsed == optimal then Perfect
    else if 5 * elapsed <= 6 * optimal then VeryClose
    else Tip
  }

  /** The roster: distinct ids, each with its player. */
  ghost predicate RosterOk(ids: seq<nat>, people: map<nat, Player>) {
    NoDuplicates(ids) && |ids| >= 2 &&
    (forall id :: id in ids <==> id in people) &&
    (forall id :: id in people ==> people[id].id == id)
  }

  function IdsOf(players: seq<Player>): (ids: seq<nat>)
    ensures |ids| == |players|
  {
    seq(|players|, i requires 0 <= i < |players| => players[i].id)
  }

  /** The id-to-player table (`playerMap`) of a roster with distinct ids. */
  function PeopleOf(players: seq<Player>): (people: map<nat, Player>)
    requires forall i, j :: 0 <= i < j < |players| ==> players[i].id != players[j].id
    ensures forall i :: 0 <= i < |players| ==> players[i].id in people && people[players[i].id] == players[i]
    ensures forall id :: id in people ==> people[id].id == id
  {
    map i | 0 <= i < |players| :: players[i].id := players[i]
  }

  /** A roster of two or more players with distinct ids gives a consistent id table. */
  lemma RosterOfPlayers(players: seq<Player>)
    requires |players| >= 2
    requires forall i, j :: 0 <= i < j < |players| ==> players[i].id != players[j].id
    ensures RosterOk(IdsOf(players), PeopleOf(players))
  {
    var ids, people := IdsOf(players), PeopleOf(players);
    forall id | id in people ensures id in ids {
      var i :| 0 <= i < |players| && players[i].id == id;
      assert ids[i] == id;
    }
  }

  /** The game screen's state as a value: what the invariant and the steps speak of. */
  datatype View = View(
    left: seq<nat>, right: seq<nat>, torch: Side, elapsed: int, phase: Phase,
    selected: seq<nat>, crossing: seq<nat>, log: seq<Move>)

  /**
   * The invariant of the turn state machine: everyone is counted once across
   * the banks and the bridge, `elapsed` is the sum of the logged costs, the
   * selection has at most two distinct ids taken from the selectable bank,
   * and each phase fixes where the torch is and who is on the bridge.
   */
  ghost predicate Inv(v: View, ids: seq<nat>) {
    Conserved(v.left, v.right, v.crossing, ids) &&
    v.elapsed == SumCosts(v.log) &&
    NoDuplicates(v.selected) && |v.selected| <= 2 &&
    match v.phase
    case SelectPair =>
      v.torch == Left && v.crossing == [] && |v.left| >= 2 &&
      forall x :: x in v.selected ==> x in v.left
    case Crossing =>
      v.torch == Left && v.crossing == v.selected && |v.crossing| == 2
    case SelectReturn =>
      v.torch == Right && v.crossing == [] && |v.left| >= 1 && |v.selected| <= 1 &&
      forall x :: x in v.selected ==> x in v.right
    case Returning =>
      v.torch == Right && v.crossing == v.selected && |v.crossing| == 1 && |v.left| >= 1
    case Done =>
      v.torch == Right && v.crossing == [] && v.left == [] && v.selected == []
  }

  /** The start: everyone on the left with the torch, nothing selected or logged. */
  function Start(ids: seq<nat>): (v: View)
    ensures multiset(v.left) == multiset(ids) && v.right == [] && v.crossing == []
    ensures v.torch == Left && v.phase == SelectPair && v.selected == []
    ensures v.elapsed == 0 && v.log == []
  {
    View(ids, [], Left, 0, SelectPair, [], [], [])
  }

  /** toggleSelect(id) */
  function Toggled(v: View, id: nat): (w: View)
    ensures w.(selected := v.selected) == v
    ensures v.phase == SelectPair ==> (id in w.selected <==> id !in v.selected && |v.selected| < 2)
    ensures v.phase == SelectReturn ==> w.selected == [id]
    ensures v.phase !in {SelectPair, SelectReturn} ==> w == v
  {
    match v.phase
    case SelectPair => v.(selected := TogglePair(v.selected, id))
    case SelectReturn => v.(selected := [id])
    case _ => v
  }

  /** confirmCross(): the selected pair steps onto the bridge, if there are exactly two. */
  function CrossConfirmed(v: View): (w: View)
    ensures |v.selected| != 2 ==> w == v
    ensures |v.selected| == 2 ==>
      w.phase == Crossing && w.crossing == v.selected && w.right == v.right && w.selected == v.selected &&
      w.torch == v.torch && w.elapsed == v.elapsed && w.log == v.log
    ensures |v.selected| == 2 ==> forall x :: x in w.left <==> x in v.left && x !in v.selected
  {
    if |v.selected| != 2 then v
    else
      WithoutKeeps(v.left, v.selected);
      v.(crossing := v.selected, phase := Crossing, left := Without(v.left, v.selected))
  }

  /** The cost of a crossing: the slower of the two. */
  function CrossCost(a: nat, b: nat, people: map<nat, Player>): int
    requires a in people && b in people
  {
    Max(people[a].time, people[b].time)
  }

  /** The end of a crossing (the body of confirmCross's timeout). */
  function CrossFinished(v: View, people: map<nat, Player>): (w: View)
    requires |v.crossing| == 2 && v.crossing[0] in people && v.crossing[1] in people
    ensures w.left == v.left && w.right == v.right + v.crossing && w.crossing == [] && w.selected == []
    ensures w.torch == Right && (w.phase == Done <==> v.left == [])
    ensures w.elapsed == v.elapsed + Max(people[v.crossing[0]].time, people[v.crossing[1]].time)
    ensures |w.log| == |v.log| + 1 && w.log[..|v.log|] == v.log
    ensures w.log[|v.log|].kind == Cross && w.log[|v.log|].cost == w.elapsed - v.elapsed
  {
    var a, b := v.crossing[0], v.crossing[1];
    var cost := CrossCost(a, b, people);
    v.(right := v.right + [a, b], elapsed := v.elapsed + cost, torch := Right,
       crossing := [], selected := [],
       log := v.log + [Move(Cross, [people[a].name, people[b].name], cost)],
       phase := if v.left == [] then Done else SelectReturn)
  }

  /** confirmReturn(): the selected player steps onto the bridge, if exactly one is selected. */
  function ReturnConfirmed(v: View): (w: View)
    ensures |v.selected| != 1 ==> w == v
    ensures |v.selected| == 1 ==>
      w.phase == Returning && w.crossing == v.selected && w.left == v.left && w.selected == v.selected &&
      w.torch == v.torch && w.elapsed == v.elapsed && w.log == v.log
    ensures |v.selected| == 1 ==> forall x :: x in w.right <==> x in v.right && x != v.selected[0]
  {
    if |v.selected| != 1 then v
    else
      WithoutKeeps(v.right, [v.selected[0]]);
      assert v.selected == [v.selected[0]];
      v.(crossing := [v.selected[0]], phase := Returning, right := Without(v.right, [v.selected[0]]))
  }

  /** The end of a return (the body of confirmReturn's timeout). */
  function ReturnFinished(v: View, people: map<nat, Player>): (w: View)
    requires |v.crossing| == 1 && v.crossing[0] in people
    ensures w.left == v.left + v.crossing && w.right == v.right && w.crossing == [] && w.selected == []
    ensures w.torch == Left && w.phase == SelectPair
    ensures w.elapsed == v.elapsed + people[v.crossing[0]].time
    ensures |w.log| == |v.log| + 1 && w.log[..|v.log|] == v.log
    ensures w.log[|v.log|].kind == Return && w.log[|v.log|].cost == w.elapsed - v.elapsed
  {
    var ret := v.crossing[0];
    var cost := people[ret].time;
    v.(left := v.left + [ret], elapsed := v.elapsed + cost, torch := Left,
       crossing := [], selected := [],
       log := v.log + [Move(Return, [people[ret].name], cost)],
       phase := SelectPair)
  }

  // ---------------------------------------------------------------------------
  // The invariant holds at the start and is kept by every step
  // ---------------------------------------------------------------------------

  lemma StartInv(ids: seq<nat>)
    requires |ids| >= 2
    ensures Inv(Start(ids), ids)
  {
  }

  /** Selecting a player on the selectable bank keeps the invariant. */
  lemma ToggleKeepsInv(v: View, ids: seq<nat>, id: nat)
    requires Inv(v, ids)
    requires v.phase == SelectPair ==> id in v.left
    requires v.phase == SelectReturn ==> id in v.right
    ensures Inv(Toggled(v, id), ids)
  {
    if v.phase == SelectPair {
      var r := TogglePair(v.selected, id);
      assert forall x :: x in r ==> x in v.selected || x == id;
    }
  }

  /** Starting a crossing keeps the invariant: the pair leaves the left bank for the bridge. */
  lemma CrossConfirmedKeepsInv(v: View, ids: seq<nat>)
    requires NoDuplicates(ids)
    requires Inv(v, ids) && v.phase == SelectPair
    ensures Inv(CrossConfirmed(v), ids)
  {
    if |v.selected| == 2 {
      StepOntoBridge(v.left, v.right, v.selected, ids);
    }
  }

  /** Everyone on the bridge belongs to the roster. */
  lemma BridgeInRoster(v: View, ids: seq<nat>, people: map<nat, Player>)
    requires RosterOk(ids, people) && Conserved(v.left, v.right, v.crossing, ids)
    ensures forall x :: x in v.crossing ==> x in people
  {
    forall x | x in v.crossing ensures x in people {
      assert multiset(v.crossing)[x] > 0;
      assert x in multiset(ids);
    }
  }

  /**
   * Finishing a crossing keeps the invariant; the game is then done exactly
   * when the left bank is empty, and then everyone is on the right bank.
   */
  lemma CrossFinishedKeepsInv(v: View, ids: seq<nat>, people: map<nat, Player>)
    requires RosterOk(ids, people)
    requires Inv(v, ids) && v.phase == Crossing
    ensures v.crossing[0] in people && v.crossing[1] in people
    ensures Inv(CrossFinished(v, people), ids)
    ensures CrossFinished(v, people).phase == Done <==> v.left == []
    ensures CrossFinished(v, people).phase == Done ==> multiset(CrossFinished(v, people).right) == multiset(ids)
  {
    BridgeInRoster(v, ids, people);
    var w := CrossFinished(v, people);
    assert v.crossing == [v.crossing[0], v.crossing[1]];
    StepOffRight(v.left, v.right, v.crossing, ids);
    assert (w.log)[..|v.log|] == v.log;
  }

  /** Starting a return keeps the invariant: the returner leaves the right bank for the bridge. */
  lemma ReturnConfirmedKeepsInv(v: View, ids: seq<nat>)
    requires NoDuplicates(ids)
    requires Inv(v, ids) && v.phase == SelectReturn
    ensures Inv(ReturnConfirmed(v), ids)
  {
    if |v.selected| == 1 {
      StepBackOntoBridge(v.left, v.right, v.selected[0], ids);
    }
  }

  /** Finishing a return keeps the invariant and hands the torch back to the left bank. */
  lemma ReturnFinishedKeepsInv(v: View, ids: seq<nat>, people: map<nat, Player>)
    requires RosterOk(ids, people)
    requires Inv(v, ids) && v.phase == Returning
    ensures v.crossing[0] in people
    ensures Inv(ReturnFinished(v, people), ids)
  {
    BridgeInRoster(v, ids, people);
    var w := ReturnFinished(v, people);
    assert v.crossing == [v.crossing[0]];
    StepOffLeft(v.left, v.right, v.crossing, ids);
    assert (w.log)[..|v.log|] == v.log;
  }

  // ---------------------------------------------------------------------------
  // The component
  // ---------------------------------------------------------------------------

  /** The game screen's state, from its start until everyone is across. */
  class Game {
    const ids: seq<nat>                // the roster's ids, in roster order
    const people: map<nat, Player>     // each id's player (`playerMap`)
    const optimal: int                 // the calculator's answer, fixed at the start
    var leftBank: seq<nat>
    var rightBank: seq<nat>
    var torch: Side
    var elapsed: int
    var phase: Phase
    var selected: seq<nat>
    var crossing: seq<nat>             // the ids on the bridge
    var moveLog: seq<Move>
    var animDir: Direction

    ghost function Current(): View
      reads this
    {
      View(leftBank, rightBank, torch, elapsed, phase, selected, crossing, moveLog)
    }

    ghost predicate Valid()
      reads this
    {
      RosterOk(ids, people) && Inv(Current(), ids)
    }

    /** Everyone starts on the left with the torch; the optimum is computed once. */
    constructor (players: seq<Player>)
      requires |players| >= 2
      requires forall i, j :: 0 <= i < j < |players| ==> players[i].id != players[j].id
      ensures Valid()
      ensures ids == IdsOf(players) && Current() == Start(ids) && animDir == Forward
      ensures forall i :: 0 <= i < |players| ==> players[i].id in people && people[players[i].id] == players[i]
      ensures optimal == OptimalTime(TimesOf(players))
    {
      var roster := new Player[|players|](i requires 0 <= i < |players| => players[i]);
      assert roster[..] == players;
      var opt := ComputeOptimalTime(roster);
      RosterOfPlayers(players);
      StartInv(IdsOf(players));
      optimal := opt;
      ids := IdsOf(players);
      people := PeopleOf(players);
      leftBank := IdsOf(players);
      rightBank := [];
      torch := Left;
      elapsed := 0;
      phase := SelectPair;
      selected := [];
      crossing := [];
      moveLog := [];
      animDir := Forward;
      new;
      assert Current() == Start(ids);
    }

    /**
     * toggleSelect: in the select-pair phase toggles `id` within a selection
     * of at most two; in the select-return phase selects exactly `id`;
     * otherwise changes nothing. Only players on the selectable bank are
     * offered, hence the requirements.
     */
    method ToggleSelect(id: nat)
      requires Valid()
      requires phase == SelectPair ==> id in leftBank
      requires phase == SelectReturn ==> id in rightBank
      modifies this`selected
      ensures Valid() && Current() == Toggled(old(Current()), id)
      ensures phase == SelectPair ==> selected == TogglePair(old(selected), id)
      ensures phase == SelectReturn ==> selected == [id]
      ensures phase !in {SelectPair, SelectReturn} ==> selected == old(selected)
    {
      ghost var v := Current();
      ToggleKeepsInv(v, ids, id);
      if phase == SelectPair {
        selected := TogglePair(selected, id);
      } else if phase == SelectReturn {
        selected := [id];
      }
      assert Current() == Toggled(v, id);
    }

    /**
     * confirmCross: with exactly two selected, puts them on the bridge and
     * takes them off the left bank; otherwise does nothing.
     */
    method ConfirmCross()
      requires Valid() && phase == SelectPair
      modifies this`crossing, this`animDir, this`phase, this`leftBank
      ensures Valid() && Current() == CrossConfirmed(old(Current()))
      ensures |selected| != 2 ==> phase == SelectPair && animDir == old(animDir)
      ensures |selected| == 2 ==>
        crossing == selected && animDir == Forward && phase == Crossing &&
        leftBank == Without(old(leftBank), selected)
    {
      ghost var v := Current();
      CrossConfirmedKeepsInv(v, ids);
      if |selected| == 2 {
        crossing := selected;
        animDir := Forward;
        phase := Crossing;
        leftBank := Without(leftBank, selected);
      }
      assert Current() == CrossConfirmed(v);
    }

    /**
     * The end of a crossing: the pair joins the right bank, the slower time
     * is added to `elapsed` and logged, the torch is on the right, and the
     * game is done exactly when the left bank is empty.
     */
    method FinishCross()
      requires Valid() && phase == Crossing
      modifies this`rightBank, this`elapsed, this`torch, this`crossing, this`selected, this`moveLog, this`phase
      ensures Valid()
      ensures old(crossing)[0] in people && old(crossing)[1] in people
      ensures Current() == CrossFinished(old(Current()), people)
      ensures phase == Done ==> multiset(rightBank) == multiset(ids)
    {
      ghost var v := Current();
      CrossFinishedKeepsInv(v, ids, people);
      ghost var w := CrossFinished(v, people);
      var a, b := crossing[0], crossing[1];
      var cost := Max(people[a].time, people[b].time);
      rightBank := rightBank + [a, b];
      elapsed := elapsed + cost;
      torch := Right;
      crossing := [];
      selected := [];
      moveLog := moveLog + [Move(Cross, [people[a].name, people[b].name], cost)];
      phase := if leftBank == [] then Done else SelectReturn;
      // the new state is the pure step's result, field by field
      assert leftBank == w.left;
      assert rightBank == w.right;
      assert torch == w.torch;
      assert elapsed == w.elapsed;
      assert phase == w.phase;
      assert selected == w.selected;
      assert crossing == w.crossing;
      assert moveLog == w.log;
      assert Current() == w;
    }

    /**
     * confirmReturn: with exactly one selected, puts that player on the
     * bridge and takes them off the right bank; otherwise does nothing.
     */
    method ConfirmReturn()
      requires Valid() && phase == SelectReturn
      modifies this`crossing, this`animDir, this`phase, this`rightBank
      ensures Valid() && Current() == ReturnConfirmed(old(Current()))
      ensures |selected| != 1 ==> phase == SelectReturn && animDir == old(animDir)
      ensures |selected| == 1 ==>
        crossing == selected && animDir == Back && phase == Returning &&
        rightBank == Without(old(rightBank), selected)
    {
      ghost var v := Current();
      ReturnConfirmedKeepsInv(v, ids);
      if |selected| == 1 {
        var ret := selected[0];
        assert selected == [ret];
        crossing := [ret];
        animDir := Back;
        phase := Returning;
        rightBank := Without(rightBank, [ret]);
      }
      assert Current() == ReturnConfirmed(v);
    }

    /**
     * The end of a return: the player joins the left bank, their time is
     * added to `elapsed` and logged, the torch is on the left and the next
     * pair can be chosen.
     */
    method FinishReturn()
      requires Valid() && phase == Returning
      modifies this`leftBank, this`elapsed, this`torch, this`crossing, this`selected, this`moveLog, this`phase
      ensures Valid()
      ensures old(crossing)[0] in people
      ensures Current() == ReturnFinished(old(Current()), people)
      ensures elapsed == old(elapsed) + people[old(crossing)[0]].time
      ensures torch == Left && crossing == [] && selected == [] && phase == SelectPair
    {
      ghost var v := Current();
      ReturnFinishedKeepsInv(v, ids, people);
      var ret := crossing[0];
      var cost := people[ret].time;
      leftBank := leftBank + [ret];
      elapsed := elapsed + cost;
      torch := Left;
      crossing := [];
      selected := [];
      moveLog := moveLog + [Move(Return, [people[ret].name], cost)];
      phase := SelectPair;
      assert Current() == ReturnFinished(v, people);
    }

    /** The rating shown once everyone is across: "Perfect" exactly at the optimum. */
    function Rating(): (r: Rating)
      reads this
      requires phase == Done
      ensures r == Perfect <==> elapsed == optimal
    {
      ResultRating(elapsed, optimal)
    }
  }
}
