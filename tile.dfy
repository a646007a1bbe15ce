/** One cell of the minefield (GameTile): its game state, the pause snapshot,
    and the operations that set or toggle them. Sprites and textures are not
    modelled; where the source picks a texture, the model returns the choice. */
module Tile {

  /** The state of one tile: the four game fields and the three pause-snapshot fields. */
  datatype TileState = TileState(
    isMine: bool,
    revealed: bool,
    isFlagged: bool,
    adjacentMines: int,
    pauseWasRevealed: bool,
    pauseWasFlagged: bool,
    pausedAdjacentMines: int)
  {
    /** The game fields only, the part a pause must give back unchanged. */
    function Core(): (bool, bool, bool, int) {
      (isMine, revealed, isFlagged, adjacentMines)
    }

    /** GameTile::reveal: a flagged tile refuses; any other tile becomes revealed. */
    function Reveal(): (t: TileState)
      ensures t.revealed <==> revealed || !isFlagged
      ensures t.isMine == isMine && t.isFlagged == isFlagged && t.adjacentMines == adjacentMines
    {
      if isFlagged then this else this.(revealed := true)
    }

    /** GameTile::flag: a revealed tile refuses; any other tile toggles its flag. */
    function Flag(): (t: TileState)
      ensures t.isFlagged <==> (if revealed then isFlagged else !isFlagged)
      ensures t.isMine == isMine && t.revealed == revealed && t.adjacentMines == adjacentMines
    {
      if revealed then this else this.(isFlagged := !isFlagged)
    }

    /** GameTile::revealMineAfterLoss: revealed whatever the flag, the flag itself kept. */
    function RevealMineAfterLoss(): (t: TileState)
      ensures t.revealed && t.isFlagged == isFlagged
      ensures t.isMine == isMine && t.adjacentMines == adjacentMines
    {
      this.(revealed := true)
    }

    /** GameTile::savePauseState: copy the three fields a pause must preserve. */
    function SavePauseState(): (t: TileState)
      ensures t.Core() == Core()
    {
      this.(pauseWasRevealed := revealed, pauseWasFlagged := isFlagged,
            pausedAdjacentMines := adjacentMines)
    }

    /** GameTile::restorePauseState: copy the snapshot back. */
    function RestorePauseState(): (t: TileState)
      ensures t.isMine == isMine
      ensures t.revealed == pauseWasRevealed && t.isFlagged == pauseWasFlagged
      ensures t.adjacentMines == pausedAdjacentMines
    {
      this.(revealed := pauseWasRevealed, isFlagged := pauseWasFlagged,
            adjacentMines := pausedAdjacentMines)
    }

    /** The texture GameTile::restoreTexture chooses after a pause. */
    function RestoredLook(): (look: Look)
      ensures look == CoveredFlag <==> isFlagged
      ensures look == Covered <==> !isFlagged && !revealed
      ensures look.Uncovered? ==> revealed && !isFlagged
      ensures look.Uncovered? ==> (look.number.Some? <==> adjacentMines > 0)
    {
      if isFlagged then CoveredFlag
      else if revealed then Uncovered(if adjacentMines > 0 then Some(adjacentMines) else None)
      else Covered
    }
  }

  datatype Option<T> = None | Some(value: T)

  /** What the tile shows: the hidden texture, the hidden texture under a flag,
      or the revealed texture with an optional number overlay. */
  datatype Look = Covered | CoveredFlag | Uncovered(number: Option<int>)

  /** A tile as GameTile's constructor leaves it. */
  const FreshTile := TileState(false, false, false, 0, false, false, 0)

  /** Revealing twice is revealing once. */
  lemma RevealIdempotent(t: TileState)
    ensures t.Reveal().Reveal() == t.Reveal()
  {
  }

  /** Flagging twice restores the tile exactly. */
  lemma FlagTwiceIsIdentity(t: TileState)
    ensures t.Flag().Flag() == t
  {
  }

  /** A flag blocks reveal, and a revealed tile can no longer be flagged. */
  lemma FlagAndRevealExclude(t: TileState)
    ensures t.isFlagged ==> t.Reveal() == t
    ensures !t.isFlagged ==> t.Reveal().Flag() == t.Reveal()
    ensures !t.revealed && !t.isFlagged ==> t.Flag().Reveal() == t.Flag()
  {
  }

  /** Saving and then restoring gives back the game fields held at save time,
      whatever happened to the snapshot-free part of the display in between. */
  lemma PauseRoundTrip(t: TileState)
    ensures t.SavePauseState().RestorePauseState() == t.SavePauseState()
    ensures t.SavePauseState().RestorePauseState().Core() == t.Core()
  {
  }

  /** The mutable tile, field for field as in GameTile. */
  class GameTile {
    var isMine: bool
    var revealed: bool
    var isFlagged: bool
    var adjacentMines: int
    var pauseWasRevealed: bool
    var pauseWasFlagged: bool
    var pausedAdjacentMines: int

    /** The value of all seven fields. */
    function State(): TileState
      reads this
    {
      TileState(isMine, revealed, isFlagged, adjacentMines,
                pauseWasRevealed, pauseWasFlagged, pausedAdjacentMines)
    }

    constructor ()
      ensures State() == FreshTile
    {
      isMine, revealed, isFlagged, adjacentMines := false, false, false, 0;
      pauseWasRevealed, pauseWasFlagged, pausedAdjacentMines := false, false, 0;
    }

    method SetMine(mineStatus: bool)
      modifies this
      ensures State() == old(State()).(isMine := mineStatus)
    {
      isMine := mineStatus;
    }

    method SetAdjacentMines(count: int)
      modifies this
      ensures State() == old(State()).(adjacentMines := count)
    {
      adjacentMines := count;
    }

    method Reveal()
      modifies this
      ensures State() == old(State()).Reveal()
    {
      if isFlagged {
        return;
      }
      revealed := true;
    }

    method Flag()
      modifies this
      ensures State() == old(State()).Flag()
    {
      if revealed {
        return;
      }
      if isFlagged {
        isFlagged := false;
      } else {
        isFlagged := true;
      }
    }

    method RevealMineAfterLoss()
      modifies this
      ensures State() == old(State()).RevealMineAfterLoss()
    {
      revealed := true;
    }

    method SavePauseState()
      modifies this
      ensures State() == old(State()).SavePauseState()
    {
      pauseWasRevealed := revealed;
      pauseWasFlagged := isFlagged;
      pausedAdjacentMines := adjacentMines;
    }

    method RestorePauseState()
      modifies this
      ensures State() == old(State()).RestorePauseState()
    {
      revealed := pauseWasRevealed;
      isFlagged := pauseWasFlagged;
      adjacentMines := pausedAdjacentMines;
    }

    /** restoreTexture: which texture the tile takes back after a pause. */
    method RestoreTexture() returns (look: Look)
      ensures look == State().RestoredLook()
    {
      if isFlagged {
        look := CoveredFlag;
      } else if revealed {
        look := Uncovered(if adjacentMines > 0 then Some(adjacentMines) else None);
      } else {
        look := Covered;
      }
    }
  }
}
