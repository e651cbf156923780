/**
 * The candidate's stage board (src/components/candidate/CandidateStages.jsx):
 * one column per hiring stage holding the candidate's card in the column
 * of its stage. Dropping the card on another column moves the candidate
 * to that stage and appends a stage change to the timeline.
 */
module CandidateStages {
  import opened Wrappers
  import opened Lists

  /** `STAGES`, in the order the columns are shown. */
  const Stages: seq<string> := ["applied", "screen", "tech", "offer", "hired", "rejected"]

  /** The candidate as the profile page holds it. */
  datatype Profile = Profile(id: int, name: string, email: string, stage: string, image: Option<string>)

  /** A card on the board. */
  datatype Card = Card(id: int, name: string, email: string, image: Option<string>)

  /** A stage change the board appends to the page's timeline. */
  datatype StageEvent = StageEvent(fromStage: string, toStage: string, timestamp: string)

  /** A place on the board: a column and a position in it. */
  datatype Spot = Spot(column: string, index: nat)

  /** What the drag-and-drop library reports when a drag ends; there is no
      destination when the card is dropped outside every column. */
  datatype DragResult = DragResult(source: Spot, destination: Option<Spot>)

  type Board = map<string, seq<Card>>

  function CardOf(c: Profile): Card
  {
    Card(c.id, c.name, c.email, c.image)
  }

  /** A column, or nothing for a stage the board has no column for. */
  function Column(b: Board, k: string): seq<Card>
  {
    if k in b then b[k] else []
  }

  /** Every card on the columns `ks`. */
  function AllCards(b: Board, ks: seq<string>): multiset<Card>
  {
    if ks == [] then multiset{} else multiset(Column(b, ks[0])) + AllCards(b, ks[1..])
  }

  predicate Distinct(ks: seq<string>)
  {
    forall i, j :: 0 <= i < j < |ks| ==> ks[i] != ks[j]
  }

  /** A column for each of `keys`, holding the candidate's card in the
      column of its stage and nothing elsewhere. */
  function Layout(c: Profile, keys: set<string>): (b: Board)
    ensures b.Keys == keys
    ensures forall k :: k in b ==> |b[k]| <= 1 && (b[k] != [] <==> k == c.stage)
  {
    map k | k in keys :: if c.stage == k then [CardOf(c)] else []
  }

  /** `buildBoard`: the layout over every stage. */
  function BuildBoard(c: Profile): (b: Board)
    ensures b.Keys == set k | k in Stages
    ensures forall k :: k in b ==> |b[k]| <= 1 && (b[k] != [] <==> k == c.stage)
  {
    Layout(c, set k | k in Stages)
  }

  /** The tail of a list without repeats has no repeats and does not
      hold the head. */
  lemma DistinctTail(ks: seq<string>)
    requires ks != [] && Distinct(ks)
    ensures Distinct(ks[1..]) && ks[0] !in ks[1..]
  {
    forall j | 0 <= j < |ks| - 1
      ensures ks[1..][j] != ks[0]
    {
      assert ks[1..][j] == ks[j + 1];
    }
  }

  /** The board shows the candidate exactly once when its stage is one of
      the stages, and not at all otherwise. */
  lemma {:induction false} BoardHoldsOneCard(c: Profile, ks: seq<string>)
    requires Distinct(ks) && forall k :: k in ks ==> k in Stages
    ensures AllCards(BuildBoard(c), ks) == if c.stage in ks then multiset{CardOf(c)} else multiset{}
  {
    if ks != [] {
      DistinctTail(ks);
      BoardHoldsOneCard(c, ks[1..]);
      assert c.stage in ks <==> c.stage == ks[0] || c.stage in ks[1..];
    }
  }

  /** Replacing one column changes how often a card is on the board by
      the difference between the old column and the new one. */
  lemma {:induction false} ReplaceColumn(b: Board, ks: seq<string>, k: string, v: seq<Card>, y: Card)
    requires Distinct(ks)
    ensures k in ks ==> AllCards(b[k := v], ks)[y] + multiset(Column(b, k))[y] == AllCards(b, ks)[y] + multiset(v)[y]
    ensures k !in ks ==> AllCards(b[k := v], ks)[y] == AllCards(b, ks)[y]
  {
    if ks != [] {
      var rest := ks[1..];
      DistinctTail(ks);
      ReplaceColumn(b, rest, k, v, y);
      var u := b[k := v];
      assert AllCards(u, ks)[y] == multiset(Column(u, ks[0]))[y] + AllCards(u, rest)[y];
      assert AllCards(b, ks)[y] == multiset(Column(b, ks[0]))[y] + AllCards(b, rest)[y];
      if k == ks[0] {
        assert Column(u, k) == v;
      } else {
        assert Column(u, ks[0]) == Column(b, ks[0]);
        assert k in ks <==> k in rest;
      }
    }
  }

  /** The board after the dragged card is spliced out of its column and
      into the destination column at the destination position (at the end
      when that position is past it). */
  function Moved(b: Board, from: Spot, to: Spot): (r: Board)
    requires from.column in b && to.column in b && from.index < |b[from.column]|
    ensures r.Keys == b.Keys
  {
    var col := b[from.column];
    var b1 := b[from.column := RemoveAt(col, from.index)];
    b1[to.column := InsertAt(b1[to.column], to.index, col[from.index])]
  }

  lemma RemoveAtMultiset<T>(s: seq<T>, i: nat)
    requires i < |s|
    ensures multiset(RemoveAt(s, i)) + multiset{s[i]} == multiset(s)
  {
    assert s == s[..i] + [s[i]] + s[i + 1..];
  }

  lemma InsertAtMultiset<T>(s: seq<T>, i: nat, x: T)
    ensures multiset(InsertAt(s, i, x)) == multiset(s) + multiset{x}
  {
    var j := if i <= |s| then i else |s|;
    assert s == s[..j] + s[j..];
  }

  /** Taking card `i` out of column `k` takes exactly that card off. */
  lemma TakeOut(b: Board, ks: seq<string>, k: string, i: nat)
    requires k in b && i < |b[k]| && Distinct(ks) && k in ks
    ensures AllCards(b[k := RemoveAt(b[k], i)], ks) + multiset{b[k][i]} == AllCards(b, ks)
  {
    var v := RemoveAt(b[k], i);
    RemoveAtMultiset(b[k], i);
    assert Column(b, k) == b[k];
    forall y ensures (AllCards(b[k := v], ks) + multiset{b[k][i]})[y] == AllCards(b, ks)[y] {
      ReplaceColumn(b, ks, k, v, y);
      assert multiset(b[k])[y] == multiset(v)[y] + multiset{b[k][i]}[y];
    }
  }

  /** Putting a card into column `k` adds exactly that card. */
  lemma PutIn(b: Board, ks: seq<string>, k: string, j: nat, x: Card)
    requires k in b && Distinct(ks) && k in ks
    ensures AllCards(b[k := InsertAt(b[k], j, x)], ks) == AllCards(b, ks) + multiset{x}
  {
    var v := InsertAt(b[k], j, x);
    InsertAtMultiset(b[k], j, x);
    assert Column(b, k) == b[k];
    forall y ensures AllCards(b[k := v], ks)[y] == (AllCards(b, ks) + multiset{x})[y] {
      ReplaceColumn(b, ks, k, v, y);
      assert multiset(v)[y] == multiset(b[k])[y] + multiset{x}[y];
    }
  }

  /** A move only rearranges the cards on the columns `ks` it starts and
      ends on. */
  lemma MovedKeepsCardsOn(b: Board, from: Spot, to: Spot, ks: seq<string>)
    requires from.column in b && to.column in b && from.index < |b[from.column]|
    requires Distinct(ks) && from.column in ks && to.column in ks
    ensures AllCards(Moved(b, from, to), ks) == AllCards(b, ks)
  {
    var x := b[from.column][from.index];
    var b1 := b[from.column := RemoveAt(b[from.column], from.index)];
    TakeOut(b, ks, from.column, from.index);
    PutIn(b1, ks, to.column, to.index, x);
  }

  /** A move between stage columns keeps every card on the board. */
  lemma MovedKeepsCards(b: Board, from: Spot, to: Spot)
    requires from.column in b && to.column in b && from.index < |b[from.column]|
    requires from.column in Stages && to.column in Stages
    ensures AllCards(Moved(b, from, to), Stages) == AllCards(b, Stages)
  {
    MovedKeepsCardsOn(b, from, to, Stages);
  }

  lemma MoveInLayout(c: Profile, keys: set<string>, to: Spot)
    requires c.stage in keys && to.column in keys
    ensures Moved(Layout(c, keys), Spot(c.stage, 0), to) == Layout(c.(stage := to.column), keys)
  {
    var b := Layout(c, keys);
    var e := Layout(c.(stage := to.column), keys);
    var card := CardOf(c);
    assert CardOf(c.(stage := to.column)) == card;
    assert b[c.stage] == [card];
    assert RemoveAt(b[c.stage], 0) == [];
    var b1 := b[c.stage := []];
    assert b1[to.column] == [];
    assert InsertAt([], to.index, card) == [card];
    var r := b1[to.column := [card]];
    assert Moved(b, Spot(c.stage, 0), to) == r;
    assert r.Keys == e.Keys;
    forall k | k in keys
      ensures r[k] == e[k]
    {
      if k != to.column && k != c.stage {
        assert r[k] == b[k];
      }
    }
  }

  /** Moving the candidate's only card to another stage's column gives the
      board that `buildBoard` makes for the candidate in that stage, so the
      rebuild after `setCandidate` agrees with the drag; dropping it back
      on its own column leaves the board as it was. */
  lemma DragAgreesWithRebuild(c: Profile, to: Spot)
    requires c.stage in Stages && to.column in Stages
    ensures Moved(BuildBoard(c), Spot(c.stage, 0), to) == BuildBoard(c.(stage := to.column))
  {
    MoveInLayout(c, (set k | k in Stages), to);
  }

  /** The stage board and the page state it updates through
      `setCandidate` and `setTimeline`. */
  class StageBoard {
    var board: Board
    var candidate: Profile
    var timeline: seq<StageEvent>

    constructor(candidate: Profile, timeline: seq<StageEvent>)
      ensures this.candidate == candidate && this.timeline == timeline && board == map[]
    {
      this.candidate := candidate;
      this.timeline := timeline;
      board := map[];
    }

    /** The effect that rebuilds the board whenever the candidate changes. */
    method Rebuild()
      modifies this
      ensures board == BuildBoard(candidate)
      ensures candidate == old(candidate) && timeline == old(timeline)
    {
      board := BuildBoard(candidate);
    }

    /** `handleDragEnd`: a drop outside every column does nothing; a drop
        on another column moves the candidate to that stage and logs the
        change; in both remaining cases the card is moved on the board. */
    method HandleDragEnd(result: DragResult, nowIso: string)
      requires result.destination.Some? ==>
                 && result.source.column in board && result.destination.value.column in board
                 && result.source.index < |board[result.source.column]|
      modifies this
      ensures result.destination.None? ==>
                board == old(board) && candidate == old(candidate) && timeline == old(timeline)
      ensures result.destination.Some? ==>
                var from, to := result.source, result.destination.value;
                && board == Moved(old(board), from, to)
                && (from.column != to.column ==>
                      && candidate == old(candidate).(stage := to.column)
                      && timeline == old(timeline) + [StageEvent(from.column, to.column, nowIso)])
                && (from.column == to.column ==> candidate == old(candidate) && timeline == old(timeline))
      ensures result.destination.Some? && result.source.column in Stages && result.destination.value.column in Stages ==>
                AllCards(board, Stages) == AllCards(old(board), Stages)
    {
      if result.destination.None? {
        return;
      }
      var sourceCol := result.source.column;
      var destCol := result.destination.value.column;
      if sourceCol != destCol {
        candidate := candidate.(stage := destCol);
        timeline := timeline + [StageEvent(sourceCol, destCol, nowIso)];
      }
      if sourceCol in Stages && destCol in Stages {
        MovedKeepsCards(board, result.source, result.destination.value);
      }
      var newBoard := board;
      var moved := newBoard[sourceCol][result.source.index];
      newBoard := newBoard[sourceCol := RemoveAt(newBoard[sourceCol], result.source.index)];
      newBoard := newBoard[destCol := InsertAt(newBoard[destCol], result.destination.value.index, moved)];
      board := newBoard;
    }
  }
}
