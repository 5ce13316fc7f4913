/**
 * The setup screen: the editable roster of players (2 to 10 rows, each with
 * an id from the shared counter, a name and a crossing time), the check that
 * decides whether the game may start, and the normalisation of the roster
 * into the players handed to the game screen.
 */
module SetupScreen {
  import opened Wrappers
  import opened GameLogic

  /** A row of the form: the id, the name as typed and the crossing time. */
  datatype Entry = Entry(id: nat, name: string, time: int)

  /** A change to one field of one row. */
  datatype Edit = SetName(name: string) | SetTime(time: int)

  const MinPlayers: nat := 2
  const MaxPlayers: nat := 10

  predicate DistinctIds(s: seq<Entry>) {
    forall i, j :: 0 <= i < j < |s| ==> s[i].id != s[j].id
  }

  /** Every id in the roster has already been issued by a counter standing at `last`. */
  predicate IdsIssued(s: seq<Entry>, last: nat) {
    forall i :: 0 <= i < |s| ==> 1 <= s[i].id <= last
  }

  /** The rows a form may hold: between two and ten, with distinct issued ids. */
  predicate WellFormed(s: seq<Entry>, last: nat) {
    MinPlayers <= |s| <= MaxPlayers && DistinctIds(s) && IdsIssued(s, last)
  }

  // ---------------------------------------------------------------------------
  // The default roster
  // ---------------------------------------------------------------------------

  /** The four default players, numbered from the first id the counter hands out. */
  function Defaults(first: nat): (d: seq<Entry>)
    ensures |d| == 4 && DistinctIds(d)
    ensures first >= 1 ==> WellFormed(d, first + 3)
  {
    [Entry(first, "Alice", 1), Entry(first + 1, "Bob", 2),
     Entry(first + 2, "Charlie", 5), Entry(first + 3, "Dave", 10)]
  }

  /** Builds the default roster, drawing four fresh ids from the counter in order. */
  method LoadDefaults(counter: IdSource) returns (d: seq<Entry>)
    requires counter.Valid()
    modifies counter
    ensures counter.Valid() && counter.last == old(counter.last) + 4
    ensures d == Defaults(old(counter.last) + 1)
    ensures WellFormed(d, counter.last)
  {
    var a := counter.Next();
    var b := counter.Next();
    var c := counter.Next();
    var e := counter.Next();
    d := [Entry(a, "Alice", 1), Entry(b, "Bob", 2), Entry(c, "Charlie", 5), Entry(e, "Dave", 10)];
  }

  // ---------------------------------------------------------------------------
  // Removing and editing rows, on values
  // ---------------------------------------------------------------------------

  /** The rows whose id is not `id`, in their order. */
  function WithoutId(s: seq<Entry>, id: nat): (r: seq<Entry>)
    ensures |r| <= |s|
  {
    if s == [] then []
    else (if s[0].id == id then [] else [s[0]]) + WithoutId(s[1..], id)
  }

  /** The filter keeps exactly the rows whose id differs from `id`. */
  lemma {:induction false} WithoutIdMembers(s: seq<Entry>, id: nat)
    ensures forall e :: e in WithoutId(s, id) <==> e in s && e.id != id
  {
    if s != [] {
      WithoutIdMembers(s[1..], id);
      assert s == [s[0]] + s[1..];
    }
  }

  /** Filtering out an id that no row has changes nothing. */
  lemma {:induction false} WithoutAbsentId(s: seq<Entry>, id: nat)
    requires forall i :: 0 <= i < |s| ==> s[i].id != id
    ensures WithoutId(s, id) == s
  {
    if s != [] {
      WithoutAbsentId(s[1..], id);
      assert s == [s[0]] + s[1..];
    }
  }

  /** With distinct ids, filtering out the id of row `k` deletes exactly that row. */
  lemma {:induction false} WithoutPresentId(s: seq<Entry>, id: nat, k: nat)
    requires DistinctIds(s) && k < |s| && s[k].id == id
    ensures WithoutId(s, id) == s[..k] + s[k + 1..]
  {
    var tail := s[1..];
    if k == 0 {
      forall i | 0 <= i < |tail| ensures tail[i].id != id {
        assert tail[i] == s[i + 1];
      }
      WithoutAbsentId(tail, id);
    } else {
      assert s[0].id != id;
      assert DistinctIds(tail) by {
        forall i, j | 0 <= i < j < |tail| ensures tail[i].id != tail[j].id {
          assert tail[i] == s[i + 1] && tail[j] == s[j + 1];
        }
      }
      WithoutPresentId(tail, id, k - 1);
      assert WithoutId(s, id) == [s[0]] + WithoutId(tail, id);
      assert tail[..k - 1] + tail[k..] == s[1..k] + s[k + 1..];
      assert s[..k] == [s[0]] + s[1..k];
    }
  }

  /** Deleting one row keeps the ids distinct and issued. */
  lemma DeleteKeepsIds(s: seq<Entry>, k: nat, last: nat)
    requires DistinctIds(s) && IdsIssued(s, last) && k < |s|
    ensures DistinctIds(s[..k] + s[k + 1..]) && IdsIssued(s[..k] + s[k + 1..], last)
  {
    var r := s[..k] + s[k + 1..];
    forall i | 0 <= i < |r| ensures r[i] == s[if i < k then i else i + 1] {
    }
  }

  /**
   * removePlayer's filter on a well-formed roster: it deletes the row with
   * that id if there is one and keeps the rest in order, so at most one row goes.
   */
  lemma RemoveFromRoster(s: seq<Entry>, id: nat, last: nat)
    requires DistinctIds(s) && IdsIssued(s, last)
    ensures DistinctIds(WithoutId(s, id)) && IdsIssued(WithoutId(s, id), last)
    ensures |WithoutId(s, id)| >= |s| - 1
    ensures (exists k :: 0 <= k < |s| && s[k].id == id) <==> |WithoutId(s, id)| == |s| - 1
  {
    if k :| 0 <= k < |s| && s[k].id == id {
      WithoutPresentId(s, id, k);
      DeleteKeepsIds(s, k, last);
    } else {
      WithoutAbsentId(s, id);
    }
  }

  /** One field of a row replaced by an edit. */
  function Apply(e: Entry, edit: Edit): (r: Entry)
    ensures r.id == e.id
  {
    match edit
    case SetName(n) => e.(name := n)
    case SetTime(t) => e.(time := t)
  }

  /** The roster with the edit applied to every row carrying `id`. */
  function Updated(s: seq<Entry>, id: nat, edit: Edit): (r: seq<Entry>)
    ensures |r| == |s|
    ensures forall i :: 0 <= i < |s| ==> r[i].id == s[i].id
  {
    seq(|s|, i requires 0 <= i < |s| => if s[i].id == id then Apply(s[i], edit) else s[i])
  }

  /**
   * With distinct ids an edit touches exactly the row holding `id`, and one
   * for an id that no row has changes nothing.
   */
  lemma UpdateTouchesOneRow(s: seq<Entry>, id: nat, edit: Edit)
    requires DistinctIds(s)
    ensures forall k :: 0 <= k < |s| && s[k].id == id ==> Updated(s, id, edit) == s[k := Apply(s[k], edit)]
    ensures (forall i :: 0 <= i < |s| ==> s[i].id != id) ==> Updated(s, id, edit) == s
  {
  }

  /** Editing keeps the roster well formed. */
  lemma UpdateKeepsIds(s: seq<Entry>, id: nat, edit: Edit, last: nat)
    requires WellFormed(s, last)
    ensures WellFormed(Updated(s, id, edit), last)
  {
  }

  /**
   * The time field's input handler: an entry that does not parse (None) or
   * parses to 0 falls back to 1, and the result is raised to at least 1.
   */
  function ClampTime(parsed: Option<int>): (t: int)
    ensures t >= 1
    ensures parsed.Some? && parsed.value >= 1 ==> t == parsed.value
    ensures parsed.None? || parsed.value < 1 ==> t == 1
  {
    match parsed
    case None => 1
    case Some(v) => Max(1, if v == 0 then 1 else v)
  }

  /** Times edited only through the time input stay positive. */
  lemma FormEditsKeepTimesPositive(s: seq<Entry>, id: nat, edit: Edit, parsed: Option<int>)
    requires forall i :: 0 <= i < |s| ==> s[i].time >= 1
    requires edit.SetName? || edit == SetTime(ClampTime(parsed))
    ensures forall i :: 0 <= i < |Updated(s, id, edit)| ==> Updated(s, id, edit)[i].time >= 1
  {
  }

  // ---------------------------------------------------------------------------
  // The form as an object
  // ---------------------------------------------------------------------------

  /** The setup form's rows, and the counter that issues ids to new rows. */
  class Roster {
    var players: seq<Entry>
    const counter: IdSource

    ghost predicate Valid()
      reads this, counter
    {
      counter.Valid() && WellFormed(players, counter.last)
    }

    /** The form starts out holding `initial` (the default roster). */
    constructor (counter: IdSource, initial: seq<Entry>)
      requires counter.Valid() && WellFormed(initial, counter.last)
      ensures Valid() && players == initial && this.counter == counter
    {
      this.counter := counter;
      players := initial;
    }

    /** addPlayer: below ten rows, appends an unnamed row with time 1 and a fresh id. */
    method AddPlayer()
      requires Valid()
      modifies this`players, counter
      ensures Valid()
      ensures old(|players|) >= MaxPlayers ==> players == old(players) && counter.last == old(counter.last)
      ensures old(|players|) < MaxPlayers ==>
        counter.last == old(counter.last) + 1 && players == old(players) + [Entry(counter.last, "", 1)]
    {
      if |players| >= MaxPlayers { return; }
      var id := counter.Next();
      players := players + [Entry(id, "", 1)];
    }

    /** removePlayer: above two rows, drops the row with `id`; otherwise changes nothing. */
    method RemovePlayer(id: nat)
      requires Valid()
      modifies this`players
      ensures Valid()
      ensures old(|players|) <= MinPlayers ==> players == old(players)
      ensures old(|players|) > MinPlayers ==> players == WithoutId(old(players), id)
    {
      if |players| <= MinPlayers { return; }
      RemoveFromRoster(players, id, counter.last);
      players := WithoutId(players, id);
    }

    /** update: applies the edit to the row with `id`. */
    method Update(id: nat, edit: Edit)
      requires Valid()
      modifies this`players
      ensures Valid() && players == Updated(old(players), id, edit)
    {
      UpdateKeepsIds(players, id, edit, counter.last);
      players := Updated(players, id, edit);
    }
  }

  // ---------------------------------------------------------------------------
  // Starting the game
  // ---------------------------------------------------------------------------

  /** The characters the string trim of JavaScript removes: white space and line terminators. */
  predicate IsSpace(c: char)
    ensures 'A' <= c <= 'Z' || 'a' <= c <= 'z' || '0' <= c <= '9' ==> !IsSpace(c)
  {
    c == '\t' || c == '\n' || c == '\U{000B}' || c == '\U{000C}' || c == '\r' || c == ' ' ||
    c == '\U{00A0}' || c == '\U{1680}' || ('\U{2000}' <= c <= '\U{200A}') ||
    c == '\U{2028}' || c == '\U{2029}' || c == '\U{202F}' || c == '\U{205F}' ||
    c == '\U{3000}' || c == '\U{FEFF}'
  }

  /** `s` without its leading white space. */
  function TrimStart(s: string): (r: string)
    ensures |r| <= |s| && r == s[|s| - |r|..]
    ensures r == [] || !IsSpace(r[0])
    ensures forall i :: 0 <= i < |s| - |r| ==> IsSpace(s[i])
  {
    if s != [] && IsSpace(s[0]) then TrimStart(s[1..]) else s
  }

  /** `s` without its trailing white space. */
  function TrimEnd(s: string): (r: string)
    ensures |r| <= |s| && r == s[..|r|]
    ensures r == [] || !IsSpace(r[|r| - 1])
    ensures forall i :: |r| <= i < |s| ==> IsSpace(s[i])
  {
    if s != [] && IsSpace(s[|s| - 1]) then TrimEnd(s[..|s| - 1]) else s
  }

  /** Every character of `s` is white space. */
  predicate AllSpace(s: string) {
    forall i :: 0 <= i < |s| ==> IsSpace(s[i])
  }

  /** `r` is the slice of `s` from `k` on of length `|r|`, and what `s` has before and after it is white space. */
  predicate TrimmedAt(s: string, r: string, k: nat) {
    k + |r| <= |s| && r == s[k..k + |r|] && AllSpace(s[..k]) && AllSpace(s[k + |r|..])
  }

  /** Some character of `s` is not white space. */
  predicate HasVisible(s: string) {
    exists i :: 0 <= i < |s| && !IsSpace(s[i])
  }

  /**
   * `trim()`: `s` less its leading and trailing white space, so neither starting nor ending with white space,
   * empty exactly when `s` is all white space.
   */
  function Trim(s: string): (r: string)
    ensures r == [] <==> !HasVisible(s)
    ensures r != [] ==> !IsSpace(r[0]) && !IsSpace(r[|r| - 1])
    ensures |r| <= |s|
    ensures exists k :: TrimmedAt(s, r, k)
  {
    var t := TrimStart(s);
    var r := TrimEnd(t);
    TrimsAreSlices(s, t, r);
    r
  }

  /**
   * Cutting white space off the front of `s` (giving `t`) and then off the back
   * of `t` (giving `r`) leaves a slice of `s` with only white space around it,
   * empty exactly when `s` is all white space, and otherwise starting and
   * ending with a visible character.
   */
  lemma TrimsAreSlices(s: string, t: string, r: string)
    requires |t| <= |s| && t == s[|s| - |t|..] && forall i :: 0 <= i < |s| - |t| ==> IsSpace(s[i])
    requires t == [] || !IsSpace(t[0])
    requires |r| <= |t| && r == t[..|r|] && forall i :: |r| <= i < |t| ==> IsSpace(t[i])
    requires r == [] || !IsSpace(r[|r| - 1])
    ensures TrimmedAt(s, r, |s| - |t|)
    ensures r == [] <==> !HasVisible(s)
    ensures r != [] ==> !IsSpace(r[0]) && !IsSpace(r[|r| - 1])
  {
    var k := |s| - |t|;
    assert r == s[k..k + |r|];
    SpacePrefix(s, k);
    SpaceSuffix(t, |r|);
    assert t[|r|..] == s[k + |r|..];
    if r == [] {
      assert t == [];
    } else {
      assert s[k] == r[0] == t[0];
    }
  }

  lemma SpacePrefix(s: string, k: nat)
    requires k <= |s| && forall i :: 0 <= i < k ==> IsSpace(s[i])
    ensures AllSpace(s[..k])
  {
  }

  lemma SpaceSuffix(s: string, n: nat)
    requires n <= |s| && forall i :: n <= i < |s| ==> IsSpace(s[i])
    ensures AllSpace(s[n..])
  {
    forall i | 0 <= i < |s| - n ensures IsSpace(s[n..][i]) {
      assert s[n..][i] == s[n + i];
    }
  }

  /**
   * canStart: every row has a name that is not blank and a positive time.
   */
  predicate CanStart(s: seq<Entry>)
    ensures CanStart(s) <==> forall i :: 0 <= i < |s| ==> HasVisible(s[i].name) && s[i].time > 0
  {
    forall i :: 0 <= i < |s| ==> Trim(s[i].name) != [] && s[i].time > 0
  }

  /** The players handed to the game: trimmed names and a colour by position. */
  function Normalised(s: seq<Entry>): (ps: seq<Player>)
    ensures |ps| == |s|
  {
    seq(|s|, i requires 0 <= i < |s| => Player(s[i].id, Trim(s[i].name), s[i].time, ColorFor(i)))
  }

  /**
   * handleStart: when the roster can start, the players for the game, in
   * roster order, with the same ids and times, non-blank trimmed names and
   * colours cycling through the table; otherwise nothing.
   */
  function HandleStart(s: seq<Entry>): (r: Option<seq<Player>>)
    ensures r.Some? <==> CanStart(s)
    ensures r.Some? ==> |r.value| == |s|
    ensures r.Some? ==> forall i :: 0 <= i < |s| ==>
      r.value[i].id == s[i].id && r.value[i].time == s[i].time && r.value[i].time > 0 &&
      r.value[i].name != [] && r.value[i].name == Trim(s[i].name) &&
      r.value[i].color == PlayerColors[i % |PlayerColors|]
  {
    if !CanStart(s) then None else Some(Normalised(s))
  }

  /**
   * A well-formed roster that can start gives the game what its constructor
   * requires: at least two players with distinct ids, all times positive,
   * so the optimum is at least every player's time.
   */
  lemma StartedRosterFitsGame(s: seq<Entry>, last: nat)
    requires WellFormed(s, last) && CanStart(s)
    ensures var ps := HandleStart(s).value;
      |ps| >= 2 && (forall i, j :: 0 <= i < j < |ps| ==> ps[i].id != ps[j].id) &&
      AllPositive(TimesOf(ps)) &&
      forall i :: 0 <= i < |ps| ==> OptimalTime(TimesOf(ps)) >= ps[i].time
  {
    NormalisedFitsGame(s, last);
  }

  lemma NormalisedFitsGame(s: seq<Entry>, last: nat)
    requires WellFormed(s, last) && forall i :: 0 <= i < |s| ==> s[i].time > 0
    ensures var ps := Normalised(s);
      |ps| >= 2 && (forall i, j :: 0 <= i < j < |ps| ==> ps[i].id != ps[j].id) &&
      AllPositive(TimesOf(ps)) &&
      forall i :: 0 <= i < |ps| ==> OptimalTime(TimesOf(ps)) >= ps[i].time
  {
    var ps := Normalised(s);
    assert forall i :: 0 <= i < |ps| ==> ps[i].id == s[i].id && ps[i].time == s[i].time;
    SlowestBoundsOptimum(ps);
  }

  /** A roster whose names each begin with a visible character and whose times are positive can start. */
  lemma VisibleInitialsCanStart(s: seq<Entry>)
    requires forall i :: 0 <= i < |s| ==> s[i].name != [] && !IsSpace(s[i].name[0]) && s[i].time > 0
    ensures CanStart(s)
  {
    forall i | 0 <= i < |s| ensures HasVisible(s[i].name) {
      assert !IsSpace(s[i].name[0]);
    }
  }

  /** The default roster can start. */
  lemma DefaultsCanStart(first: nat)
    ensures CanStart(Defaults(first))
  {
    var d := Defaults(first);
    assert !IsSpace('A') && !IsSpace('B') && !IsSpace('C') && !IsSpace('D');
    assert d[0].name[0] == 'A' && d[1].name[0] == 'B' && d[2].name[0] == 'C' && d[3].name[0] == 'D';
    VisibleInitialsCanStart(d);
  }

  /** Normalising keeps every row's time where it was. */
  lemma NormalisedKeepsTimes(s: seq<Entry>)
    ensures |TimesOf(Normalised(s))| == |s|
    ensures forall i :: 0 <= i < |s| ==> TimesOf(Normalised(s))[i] == s[i].time
  {
  }

  /** A roster that can start with the times 1, 2, 5 and 10, in that order, has optimal time 17. */
  lemma StartWithClassicTimes(s: seq<Entry>)
    requires CanStart(s) && |s| == 4
    requires s[0].time == 1 && s[1].time == 2 && s[2].time == 5 && s[3].time == 10
    ensures HandleStart(s).Some? && OptimalTime(TimesOf(HandleStart(s).value)) == 17
  {
    var ts := TimesOf(Normalised(s));
    NormalisedKeepsTimes(s);
    DefaultTimesGive17(ts);
  }

  /** The default roster can start, and its optimal time is 17 minutes. */
  lemma DefaultsStartAt17(first: nat)
    ensures HandleStart(Defaults(first)).Some?
    ensures OptimalTime(TimesOf(HandleStart(Defaults(first)).value)) == 17
  {
    var d := Defaults(first);
    assert |d| == 4 && d[0].time == 1 && d[1].time == 2 && d[2].time == 5 && d[3].time == 10;
    DefaultsCanStart(first);
    StartWithClassicTimes(d);
  }
}
